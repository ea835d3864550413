/**
 Similar-group construction (codebase_rag/duplicates.py, _supplemental_cliques to _similar_groups): candidate pairs,
 threshold graph, maximal cliques, and the groups emitted for each clique.
 */
module SimilarGroups {
  import opened Orders
  import opened Clones
  import opened CandidatePairs
  import opened Nesting
  import opened Cliques

  // ----- the threshold graph -----

  predicate OnlyNested(first: seq<Member>, second: seq<Member>) {
    forall a, b :: a in first && b in second ==> NestedIn(a, b) || NestedIn(b, a)
  }

  predicate EdgeQualifies(left: Entry, right: Entry, t: real) {
    var smaller := Min(|left.branches|, |right.branches|);
    var larger := Max(|left.branches|, |right.branches|);
    if larger == 0 || smaller as real / larger as real < t then false
    else if Jaccard(left.branches, right.branches) < t then false
    else !OnlyNested(left.members, right.members)
  }

  // The size test rejects no pair at the threshold, except two entries without branches: an edge is any other pair at
  // the threshold with members of which neither is part of the other.
  lemma EdgeMeaning(left: Entry, right: Entry, t: real)
    ensures EdgeQualifies(left, right, t) <==>
            && left.branches + right.branches != {} && t <= Jaccard(left.branches, right.branches)
            && exists a, b :: a in left.members && b in right.members && !NestedIn(a, b) && !NestedIn(b, a)
    ensures t > 0.0 ==> (t <= Jaccard(left.branches, right.branches) ==> left.branches + right.branches != {})
  {
    if Max(|left.branches|, |right.branches|) > 0 {
      SizeRatioBound(left.branches, right.branches);
      assert left.branches + right.branches != {};
    } else {
      assert left.branches + right.branches == {};
    }
  }

  lemma EdgeSymmetric(left: Entry, right: Entry, t: real)
    ensures EdgeQualifies(left, right, t) == EdgeQualifies(right, left, t)
  {
    JaccardSymmetric(left.branches, right.branches);
    assert OnlyNested(left.members, right.members) == OnlyNested(right.members, left.members);
  }

  ghost predicate PairsOf(order: seq<Entry>, pairs: set<(nat, nat)>) {
    forall l, r :: (l, r) in pairs ==> l < r < |order|
  }

  ghost predicate Linked(order: seq<Entry>, pairs: set<(nat, nat)>, t: real, u: int, v: int) {
    && 0 <= u < |order| && 0 <= v < |order|
    && ((u, v) in pairs || (v, u) in pairs)
    && EdgeQualifies(order[u], order[v], t)
  }

  ghost predicate ThresholdGraph(order: seq<Entry>, pairs: set<(nat, nat)>, t: real, g: Graph) {
    && (forall u, v :: u in g && v in g[u] <==> Linked(order, pairs, t, u, v))
    && (forall u :: u in g ==> g[u] != {})
  }

  // adjacency.setdefault(u, set()).add(v)
  function AddNeighbour(g: Graph, u: int, v: int): Graph {
    g[u := (if u in g then g[u] else {}) + {v}]
  }

  lemma NeighbourAdded(g: Graph, u: int, v: int, x: int, y: int)
    ensures x in AddNeighbour(g, u, v) && y in AddNeighbour(g, u, v)[x] <==>
            (x in g && y in g[x]) || (x == u && y == v)
  {
  }

  lemma LinkAdded(order: seq<Entry>, pairs: set<(nat, nat)>, t: real, g: Graph, l: nat, r: nat)
    requires PairsOf(order, pairs) && l < r < |order| && ThresholdGraph(order, pairs, t, g)
    requires EdgeQualifies(order[l], order[r], t)
    ensures ThresholdGraph(order, pairs + {(l, r)}, t, AddNeighbour(AddNeighbour(g, l, r), r, l))
  {
    var g1 := AddNeighbour(g, l, r);
    var g2 := AddNeighbour(g1, r, l);
    forall u, v ensures u in g2 && v in g2[u] <==> Linked(order, pairs + {(l, r)}, t, u, v) {
      NeighbourAdded(g, l, r, u, v);
      NeighbourAdded(g1, r, l, u, v);
      LinkedMore(order, pairs, t, l, r, u, v);
    }
    forall u | u in g2 ensures g2[u] != {} {
      assert u == l || u == r || (u in g && g2[u] == g[u]);
    }
  }

  lemma LinkedMore(order: seq<Entry>, pairs: set<(nat, nat)>, t: real, l: nat, r: nat, u: int, v: int)
    requires l < r < |order| && EdgeQualifies(order[l], order[r], t)
    ensures Linked(order, pairs + {(l, r)}, t, u, v) <==>
            Linked(order, pairs, t, u, v) || (u == l && v == r) || (u == r && v == l)
  {
    EdgeSymmetric(order[l], order[r], t);
  }

  lemma LinkRejected(order: seq<Entry>, pairs: set<(nat, nat)>, t: real, g: Graph, l: nat, r: nat)
    requires PairsOf(order, pairs) && l < r < |order| && ThresholdGraph(order, pairs, t, g)
    requires !EdgeQualifies(order[l], order[r], t)
    ensures ThresholdGraph(order, pairs + {(l, r)}, t, g)
  {
    EdgeSymmetric(order[l], order[r], t);
    forall u, v ensures u in g && v in g[u] <==> Linked(order, pairs + {(l, r)}, t, u, v) {
      assert u in g && v in g[u] <==> Linked(order, pairs, t, u, v);
    }
  }

  method ThresholdAdjacency(order: seq<Entry>, pairs: set<(nat, nat)>, t: real) returns (g: Graph)
    requires PairsOf(order, pairs)
    ensures ThresholdGraph(order, pairs, t, g)
  {
    g := map[];
    var rest := pairs;
    while rest != {}
      invariant rest <= pairs && ThresholdGraph(order, pairs - rest, t, g)
    {
      var pair :| pair in rest;
      var l, r := pair.0, pair.1;
      assert (l, r) in pairs;
      if EdgeQualifies(order[l], order[r], t) {
        LinkAdded(order, pairs - rest, t, g, l, r);
        g := AddNeighbour(AddNeighbour(g, l, r), r, l);
      } else {
        LinkRejected(order, pairs - rest, t, g, l, r);
      }
      assert pairs - (rest - {pair}) == pairs - rest + {(l, r)};
      rest := rest - {pair};
    }
    assert pairs - rest == pairs;
  }

  lemma ThresholdGraphSimple(order: seq<Entry>, pairs: set<(nat, nat)>, t: real, g: Graph)
    requires PairsOf(order, pairs) && ThresholdGraph(order, pairs, t, g)
    ensures SimpleGraph(g)
  {
    forall u, v | u in g && v in g[u] ensures v in g && u in g[v] && u != v {
      assert Linked(order, pairs, t, u, v);
      EdgeSymmetric(order[u], order[v], t);
      assert Linked(order, pairs, t, v, u);
    }
  }

  // ----- what one clique emits -----

  ghost predicate InOrder(positions: seq<int>, order: seq<Entry>) {
    forall i :: 0 <= i < |positions| ==> 0 <= positions[i] < |order|
  }

  function AllMembers(positions: seq<int>, order: seq<Entry>): seq<Member>
    requires InOrder(positions, order)
  {
    if positions == [] then []
    else order[positions[0]].members + AllMembers(positions[1..], order)
  }

  function PrunedMembers(positions: seq<int>, order: seq<Entry>): seq<Member>
    requires InOrder(positions, order)
  {
    DropContained(AllMembers(positions, order))
  }

  predicate ContainsAny(container: Entry, contained: Entry) {
    exists outer, inner :: outer in container.members && inner in contained.members && NestedIn(outer, inner)
  }

  // No member of the entry survived.  The source compares identities; whether a member survives depends on its value
  // only, so comparing values gives the same answer.
  predicate FullyPruned(entry: Entry, kept: seq<Member>) {
    forall m :: m in entry.members ==> m !in kept
  }

  function Partners(clique: seq<int>, order: seq<Entry>, position: int): (partners: seq<int>)
    requires InOrder(clique, order) && 0 <= position < |order|
    ensures forall p :: p in partners <==>
              p in clique && p != position && !ContainsAny(order[p], order[position])
  {
    if clique == [] then []
    else
      (if clique[0] != position && !ContainsAny(order[clique[0]], order[position]) then [clique[0]] else [])
      + Partners(clique[1..], order, position)
  }

  // The sub-clique that preserves an entry, if it needs one and has partners.
  function SubcliquesOf(position: int, clique: seq<int>, order: seq<Entry>, kept: seq<Member>): seq<seq<int>>
    requires 0 <= position < |order| && InOrder(clique, order)
  {
    var partners := Partners(clique, order, position);
    if FullyPruned(order[position], kept) && partners != [] then [Sort([position] + partners, IntLe)] else []
  }

  // The supplemental sub-cliques of the entries of `rest`, which are entries of the clique.
  function SupplementalCliques(rest: seq<int>, clique: seq<int>, order: seq<Entry>, kept: seq<Member>): seq<seq<int>>
    requires InOrder(rest, order) && InOrder(clique, order)
  {
    if rest == [] then []
    else SubcliquesOf(rest[0], clique, order, kept) + SupplementalCliques(rest[1..], clique, order, kept)
  }

  function Emissions(clique: seq<int>, order: seq<Entry>): seq<seq<int>>
    requires InOrder(clique, order)
  {
    [clique] + SupplementalCliques(clique, clique, order, PrunedMembers(clique, order))
  }

  ghost predicate Supplement(s: seq<int>, clique: seq<int>, order: seq<Entry>, p: int)
    requires InOrder(clique, order)
  {
    && p in clique && FullyPruned(order[p], PrunedMembers(clique, order))
    && Partners(clique, order, p) != []
    && s == Sort([p] + Partners(clique, order, p), IntLe)
  }

  lemma SubcliqueMeaning(p: int, clique: seq<int>, order: seq<Entry>, s: seq<int>)
    requires InOrder(clique, order) && p in clique && 0 <= p < |order|
    ensures s in SubcliquesOf(p, clique, order, PrunedMembers(clique, order)) <==> Supplement(s, clique, order, p)
  {
  }

  lemma {:induction false} SupplementalMeaning(rest: seq<int>, clique: seq<int>, order: seq<Entry>, s: seq<int>)
    requires InOrder(clique, order) && InOrder(rest, order) && forall p :: p in rest ==> p in clique
    ensures s in SupplementalCliques(rest, clique, order, PrunedMembers(clique, order)) <==>
            exists p :: p in rest && Supplement(s, clique, order, p)
  {
    if rest != [] {
      assert rest[0] in rest;
      SubcliqueMeaning(rest[0], clique, order, s);
      SupplementalMeaning(rest[1..], clique, order, s);
      if p :| p in rest && p !in rest[1..] && Supplement(s, clique, order, p) {
        assert p == rest[0];
      }
    }
  }

  lemma {:induction false} AllMembersMeaning(positions: seq<int>, order: seq<Entry>, m: Member)
    requires InOrder(positions, order)
    ensures m in AllMembers(positions, order) <==> exists p :: p in positions && m in order[p].members
  {
    if positions != [] {
      AllMembersMeaning(positions[1..], order, m);
      assert forall p :: p in positions <==> p == positions[0] || p in positions[1..];
    }
  }

  // The members of a list of entries are theirs in turn.
  lemma {:induction false} AllMembersAppend(a: seq<int>, b: seq<int>, order: seq<Entry>)
    requires InOrder(a, order) && InOrder(b, order)
    ensures InOrder(a + b, order) && AllMembers(a + b, order) == AllMembers(a, order) + AllMembers(b, order)
    ensures |a| == 1 ==> AllMembers(a, order) == order[a[0]].members
  {
    if a != [] {
      AllMembersAppend(a[1..], b, order);
      assert (a + b)[1..] == a[1..] + b;
    } else {
      assert a + b == b;
    }
  }

  // The sub-cliques of a list of entries are theirs in turn.
  lemma {:induction false} SupplementalAppend(a: seq<int>, b: seq<int>, clique: seq<int>, order: seq<Entry>,
                                              kept: seq<Member>)
    requires InOrder(a, order) && InOrder(b, order) && InOrder(clique, order) && InOrder(a + b, order)
    ensures SupplementalCliques(a + b, clique, order, kept) ==
            SupplementalCliques(a, clique, order, kept) + SupplementalCliques(b, clique, order, kept)
  {
    if a != [] {
      var rest, head := a[1..], SubcliquesOf(a[0], clique, order, kept);
      assert (a + b)[1..] == rest + b && (a + b)[0] == a[0];
      SupplementalAppend(rest, b, clique, order, kept);
      Joined(head, SupplementalCliques(rest, clique, order, kept), SupplementalCliques(b, clique, order, kept));
    } else {
      assert a + b == b;
    }
  }

  // q is another entry of the clique, and no member of p is part of a member of q.
  ghost predicate Partner(clique: seq<int>, order: seq<Entry>, p: int, q: int)
    requires InOrder(clique, order) && 0 <= p < |order|
  {
    && q in clique && q != p
    && forall outer, inner :: outer in order[q].members && inner in order[p].members ==> !NestedIn(outer, inner)
  }

  lemma PartnersAre(clique: seq<int>, order: seq<Entry>, p: int)
    requires InOrder(clique, order) && 0 <= p < |order|
    ensures forall q :: q in Partners(clique, order, p) <==> Partner(clique, order, p, q)
  {
    forall q | q in clique
      ensures ContainsAny(order[q], order[p]) <==>
              exists outer, inner :: outer in order[q].members && inner in order[p].members && NestedIn(outer, inner)
    {
    }
  }

  // An entry has one sub-clique if none of its members was kept and it has a partner, namely the ascending list of the
  // entry and its partners, and otherwise none.
  lemma SupplementalSingle(p: int, clique: seq<int>, order: seq<Entry>, kept: seq<Member>)
    requires 0 <= p < |order| && InOrder(clique, order) && NoDuplicates(clique)
    ensures var found := SupplementalCliques([p], clique, order, kept);
            if (forall m :: m in order[p].members ==> m !in kept) && exists q :: Partner(clique, order, p, q)
              then |found| == 1 && (forall i, j :: 0 <= i < j < |found[0]| ==> found[0][i] < found[0][j])
                   && forall q :: q in found[0] <==> q == p || Partner(clique, order, p, q)
              else found == []
  {
    var partners := Partners(clique, order, p);
    PartnersAre(clique, order, p);
    if partners != [] {
      assert Partner(clique, order, p, partners[0]);
    }
    assert [p][1..] == [] && [p][0] == p;
    var s := Sort([p] + partners, IntLe);
    PartnersDistinct(clique, order, p);
    SupplementShape([p] + partners, s);
    SortOrdered([p] + partners, IntLe);
    assert forall i, j :: 0 <= i < j < |s| ==> IntLe(s[i], s[j]) && s[i] != s[j];
  }

  // A clique is emitted first, with the members it keeps, and then its sub-cliques.
  lemma EmissionsAre(clique: seq<int>, order: seq<Entry>)
    requires InOrder(clique, order)
    ensures Emissions(clique, order) ==
            [clique] + SupplementalCliques(clique, clique, order, DropContained(AllMembers(clique, order)))
  {
  }

  // ----- what a group promises -----

  // Two or more distinct positions, every two of them joined by an edge.
  ghost predicate PairwiseSimilar(positions: seq<int>, order: seq<Entry>, t: real) {
    && |positions| > 1 && InOrder(positions, order) && NoDuplicates(positions)
    && forall u, v :: u in positions && v in positions && u != v ==> EdgeQualifies(order[u], order[v], t)
  }

  lemma {:induction false} PartnersDistinct(clique: seq<int>, order: seq<Entry>, position: int)
    requires InOrder(clique, order) && 0 <= position < |order| && NoDuplicates(clique)
    ensures NoDuplicates(Partners(clique, order, position))
  {
    if clique != [] {
      PartnersDistinct(clique[1..], order, position);
    }
  }

  lemma SupplementShape(positions: seq<int>, s: seq<int>)
    requires NoDuplicates(positions) && s == Sort(positions, IntLe)
    ensures |s| == |positions| && NoDuplicates(s) && forall p :: p in s <==> p in positions
  {
    SortElements(positions, IntLe);
    SortPermutes(positions, IntLe);
    DuplicateFree(positions, s);
  }

  // Any two or more distinct positions of a clique are pairwise similar.
  lemma SubcliquePairwise(clique: seq<int>, order: seq<Entry>, t: real, s: seq<int>)
    requires PairwiseSimilar(clique, order, t)
    requires |s| > 1 && NoDuplicates(s) && forall p :: p in s ==> p in clique
    ensures PairwiseSimilar(s, order, t)
  {
    forall i | 0 <= i < |s| ensures 0 <= s[i] < |order| {
      assert s[i] in s;
    }
  }

  lemma SupplementPositions(clique: seq<int>, order: seq<Entry>, p: int, s: seq<int>)
    requires InOrder(clique, order) && NoDuplicates(clique) && p in clique && Supplement(s, clique, order, p)
    ensures |s| > 1 && NoDuplicates(s)
    ensures forall q :: q in s <==> q in clique && (q == p || !ContainsAny(order[q], order[p]))
    ensures InOrder(s, order)
  {
    PartnersDistinct(clique, order, p);
    SupplementShape([p] + Partners(clique, order, p), s);
    forall i | 0 <= i < |s| ensures 0 <= s[i] < |order| {
      assert s[i] in s;
    }
  }

  // Supplemental groups honour the pairwise invariant too.
  lemma EmissionPairwise(clique: seq<int>, order: seq<Entry>, t: real, s: seq<int>)
    requires PairwiseSimilar(clique, order, t) && s in Emissions(clique, order)
    ensures PairwiseSimilar(s, order, t)
  {
    if s != clique {
      SupplementalMeaning(clique, clique, order, s);
      var p :| p in clique && Supplement(s, clique, order, p);
      SupplementPositions(clique, order, p, s);
      SubcliquePairwise(clique, order, t, s);
    }
  }

  // A fully pruned entry shows at least one member in the sub-clique that is emitted for it, next to its partners.
  lemma SupplementalKeeps(clique: seq<int>, order: seq<Entry>, p: int, s: seq<int>) returns (m: Member)
    requires InOrder(clique, order) && NoDuplicates(clique) && p in clique && order[p].members != []
    requires Supplement(s, clique, order, p)
    ensures s in Emissions(clique, order)
    ensures InOrder(s, order) && p in s && m in order[p].members && m in PrunedMembers(s, order)
  {
    SupplementalMeaning(clique, clique, order, s);
    SupplementPositions(clique, order, p, s);
    m := SomethingSurvives(order[p].members);
    UncontainedSurvives(order, p, s, m);
  }

  // A member that no member of its own entry contains survives wherever no other entry contains any of its entry.
  lemma UncontainedSurvives(order: seq<Entry>, p: int, s: seq<int>, m: Member)
    requires InOrder(s, order) && p in s && m in DropContained(order[p].members)
    requires forall q :: q in s ==> q == p || !ContainsAny(order[q], order[p])
    ensures m in order[p].members && m in PrunedMembers(s, order)
  {
    DropContainedKeeps(order[p].members, m);
    AllMembersMeaning(s, order, m);
    forall other | other in AllMembers(s, order) ensures !NestedIn(other, m) {
      AllMembersMeaning(s, order, other);
      var q :| q in s && other in order[q].members;
    }
    DropContainedKeeps(AllMembers(s, order), m);
  }

  // ----- every clique is worth a group -----

  // Members of one entry share a fingerprint, so none of them can be part of another.
  ghost predicate Flat(entry: Entry) {
    entry.members != [] && forall a, b :: a in entry.members && b in entry.members ==> !NestedIn(a, b)
  }

  lemma {:induction false} AllMembersCount(positions: seq<int>, order: seq<Entry>, u: int, v: int, m: Member)
    requires InOrder(positions, order) && u in positions && v in positions
    requires m in order[u].members && m in order[v].members
    ensures multiset(AllMembers(positions, order))[m] >= if u == v then 1 else 2
  {
    var head, rest := order[positions[0]].members, positions[1..];
    assert multiset(head + AllMembers(rest, order)) == multiset(head) + multiset(AllMembers(rest, order));
    assert forall p :: p in positions <==> p == positions[0] || p in rest;
    if u in rest && v in rest {
      AllMembersCount(rest, order, u, v, m);
    } else {
      assert m in multiset(head);
      if u in rest {
        AllMembersCount(rest, order, u, u, m);
      }
      if v in rest {
        AllMembersCount(rest, order, v, v, m);
      }
    }
  }

  // The only survivor of a list contains, or is, every member of it.
  lemma SoleSurvivor(members: seq<Member>, m: Member, x: Member)
    requires DropContained(members) == [m] && x in members
    ensures x == m || NestedIn(m, x)
  {
    DropContainedKeeps(members, x);
    if Contained(x, members) {
      var container := SurvivingContainer(members, x);
    }
  }

  // No qualifying pair is dropped for want of members: a clique of flat entries always shows two members.
  lemma CliqueShowsTwo(clique: seq<int>, order: seq<Entry>, t: real)
    requires PairwiseSimilar(clique, order, t)
    requires forall p :: p in clique ==> Flat(order[p])
    ensures |PrunedMembers(clique, order)| >= 2
  {
    var members := AllMembers(clique, order);
    AllMembersMeaning(clique, order, order[clique[0]].members[0]);
    var m := SomethingSurvives(members);
    if DropContained(members) == [m] {
      DropContainedKeeps(members, m);
      AllMembersMeaning(clique, order, m);
      var q :| q in clique && m in order[q].members;
      var w := if clique[0] == q then clique[1] else clique[0];
      assert w in clique && EdgeQualifies(order[q], order[w], t);
      var a, b :| a in order[q].members && b in order[w].members && !NestedIn(a, b) && !NestedIn(b, a);
      AllMembersMeaning(clique, order, a);
      AllMembersMeaning(clique, order, b);
      SoleSurvivor(members, m, a);
      SoleSurvivor(members, m, b);
      assert a == m && b == m;
      AllMembersCount(clique, order, q, w, m);
      OutermostKeeps(members, members, m);
      assert false;
    }
  }

  // ----- which pairs are seen together -----

  // The group shows both entries of a pair.
  ghost predicate ShowsBoth(s: seq<int>, order: seq<Entry>, l: int, r: int) {
    && InOrder(s, order) && l in s && r in s
    && !FullyPruned(order[l], PrunedMembers(s, order)) && !FullyPruned(order[r], PrunedMembers(s, order))
  }

  // Some entry of the list contains m.
  ghost predicate InsideAny(positions: seq<int>, order: seq<Entry>, m: Member)
    requires InOrder(positions, order)
  {
    exists x :: x in positions && Contained(m, order[x].members)
  }

  lemma PrunedIff(s: seq<int>, order: seq<Entry>, p: int, m: Member)
    requires InOrder(s, order) && p in s && m in order[p].members
    ensures m in PrunedMembers(s, order) <==> !InsideAny(s, order, m)
  {
    AllMembersMeaning(s, order, m);
    DropContainedKeeps(AllMembers(s, order), m);
    if Contained(m, AllMembers(s, order)) {
      var o :| o in AllMembers(s, order) && NestedIn(o, m);
      AllMembersMeaning(s, order, o);
      var x :| x in s && o in order[x].members;
      assert Contained(m, order[x].members);
    }
    if x :| x in s && Contained(m, order[x].members) {
      var o :| o in order[x].members && NestedIn(o, m);
      AllMembersMeaning(s, order, o);
    }
  }

  // In the clique's own group: a member of p is inside no entry.
  ghost predicate Survives(clique: seq<int>, order: seq<Entry>, p: int)
    requires InOrder(clique, order) && 0 <= p < |order|
  {
    exists m :: m in order[p].members && !InsideAny(clique, order, m)
  }

  lemma SurvivesIff(s: seq<int>, order: seq<Entry>, p: int)
    requires InOrder(s, order) && p in s
    ensures Survives(s, order, p) <==> !FullyPruned(order[p], PrunedMembers(s, order))
  {
    forall m | m in order[p].members ensures m in PrunedMembers(s, order) <==> !InsideAny(s, order, m) {
      PrunedIff(s, order, p, m);
    }
  }

  // The entries that stay in the sub-clique of a fully pruned entry e: e itself, and those that contain nothing of it.
  predicate Stays(order: seq<Entry>, e: int, p: int)
    requires 0 <= e < |order| && 0 <= p < |order|
  {
    p == e || !ContainsAny(order[p], order[e])
  }

  // There: p stays, and a member of it is inside none of the entries that stay.
  ghost predicate SurvivesBeside(clique: seq<int>, order: seq<Entry>, e: int, p: int)
    requires InOrder(clique, order) && 0 <= e < |order| && 0 <= p < |order|
  {
    && Stays(order, e, p)
    && exists m :: m in order[p].members
                   && forall x :: x in clique && Stays(order, e, x) ==> !Contained(m, order[x].members)
  }

  lemma SurvivesBesideIff(clique: seq<int>, order: seq<Entry>, e: int, s: seq<int>, p: int)
    requires InOrder(clique, order) && NoDuplicates(clique) && e in clique && Supplement(s, clique, order, e)
    requires p in clique
    ensures InOrder(s, order)
    ensures SurvivesBeside(clique, order, e, p) <==> p in s && !FullyPruned(order[p], PrunedMembers(s, order))
  {
    SupplementPositions(clique, order, e, s);
    assert forall q :: q in s <==> q in clique && Stays(order, e, q);
    if p in s {
      SurvivesIff(s, order, p);
      forall m ensures InsideAny(s, order, m) <==>
                       exists x :: x in clique && Stays(order, e, x) && Contained(m, order[x].members)
      {
      }
    }
  }

  lemma SupplementOf(clique: seq<int>, order: seq<Entry>, e: int, l: int, r: int) returns (s: seq<int>)
    requires InOrder(clique, order) && e in clique && l in clique && r in clique && l != r
    requires !Survives(clique, order, e) && Stays(order, e, l) && Stays(order, e, r)
    ensures s in Emissions(clique, order) && Supplement(s, clique, order, e)
  {
    SurvivesIff(clique, order, e);
    s := Sort([e] + Partners(clique, order, e), IntLe);
    assert (if l == e then r else l) in Partners(clique, order, e);
    assert Supplement(s, clique, order, e);
    SupplementalMeaning(clique, clique, order, s);
  }

  // Some emission of the clique shows both entries.
  ghost predicate SeenTogether(clique: seq<int>, order: seq<Entry>, l: int, r: int)
    requires InOrder(clique, order)
  {
    exists s :: s in Emissions(clique, order) && ShowsBoth(s, order, l, r)
  }

  // Exactly when two entries of a clique are seen together: both survive in its own group, or both survive beside some
  // entry that does not.
  lemma SeenTogetherIff(clique: seq<int>, order: seq<Entry>, l: int, r: int)
    requires InOrder(clique, order) && NoDuplicates(clique) && l in clique && r in clique && l != r
    ensures SeenTogether(clique, order, l, r) <==>
            || (Survives(clique, order, l) && Survives(clique, order, r))
            || exists e :: e in clique && !Survives(clique, order, e)
                           && SurvivesBeside(clique, order, e, l) && SurvivesBeside(clique, order, e, r)
  {
    SurvivesIff(clique, order, l);
    SurvivesIff(clique, order, r);
    if s :| s in Emissions(clique, order) && ShowsBoth(s, order, l, r) && s != clique {
      SupplementalMeaning(clique, clique, order, s);
      var e :| e in clique && Supplement(s, clique, order, e);
      SurvivesIff(clique, order, e);
      SurvivesBesideIff(clique, order, e, s, l);
      SurvivesBesideIff(clique, order, e, s, r);
    }
    if e :| e in clique && !Survives(clique, order, e)
            && SurvivesBeside(clique, order, e, l) && SurvivesBeside(clique, order, e, r)
    {
      var s := SupplementOf(clique, order, e, l, r);
      SurvivesBesideIff(clique, order, e, s, l);
      SurvivesBesideIff(clique, order, e, s, r);
    }
    if Survives(clique, order, l) && Survives(clique, order, r) {
      assert ShowsBoth(clique, order, l, r);
    }
  }

  // Every member of `inner` sits inside a member of `outer`.
  ghost predicate Swallows(outer: Entry, inner: Entry) {
    forall m :: m in inner.members ==> exists o :: o in outer.members && NestedIn(o, m)
  }

  lemma SwallowedPruned(s: seq<int>, order: seq<Entry>, outer: int, inner: int)
    requires InOrder(s, order) && outer in s && inner in s && Swallows(order[outer], order[inner])
    ensures FullyPruned(order[inner], PrunedMembers(s, order))
  {
    forall m | m in order[inner].members ensures m !in PrunedMembers(s, order) {
      var o :| o in order[outer].members && NestedIn(o, m);
      AllMembersMeaning(s, order, o);
      DropContainedKeeps(AllMembers(s, order), m);
    }
  }

  // A pair is seen together nowhere when each of the two is swallowed by an entry of the clique and no entry has
  // members inside both of these.
  lemma PairHidden(clique: seq<int>, order: seq<Entry>, l: int, r: int, p: int, q: int, s: seq<int>)
    requires InOrder(clique, order) && NoDuplicates(clique)
    requires l in clique && r in clique && p in clique && q in clique
    requires Swallows(order[p], order[l]) && Swallows(order[q], order[r])
    requires forall e :: e in clique ==> !(ContainsAny(order[p], order[e]) && ContainsAny(order[q], order[e]))
    requires s in Emissions(clique, order)
    ensures !ShowsBoth(s, order, l, r)
  {
    if ShowsBoth(s, order, l, r) {
      if s != clique {
        SupplementalMeaning(clique, clique, order, s);
        var e :| e in clique && Supplement(s, clique, order, e);
        SupplementPositions(clique, order, e, s);
      }
      if p in s {
        SwallowedPruned(s, order, p, l);
      } else {
        SwallowedPruned(s, order, q, r);
      }
    }
  }

  // Two copies of a definition, each with a copy of another one inside it.
  function Copies(fingerprint: string, first: string, second: string, start: int, end: int): Entry {
    Entry(fingerprint, 10, {"branch"}, [Member(first, first, start, end), Member(second, second, start, end)])
  }

  lemma CopiesQualify(x: Entry, y: Entry, a: Member, b: Member)
    requires x.branches == y.branches == {"branch"} && a in x.members && b in y.members && a.path != b.path
    ensures EdgeQualifies(x, y, 1.0)
  {
    assert x.branches + y.branches == {"branch"} && x.branches * y.branches == {"branch"};
    assert !NestedIn(a, b) && !NestedIn(b, a);
  }

  // Copies in other files contain nothing of each other.
  lemma CopiesApart(x: Entry, y: Entry)
    requires forall a, b :: a in x.members && b in y.members ==> a.path != b.path
    ensures !ContainsAny(x, y)
  {
  }

  lemma CopiesSwallow(outer: string, inner: string, first: string, second: string)
    ensures Swallows(Copies(outer, first, second, 1, 10), Copies(inner, first, second, 2, 9))
  {
    var x, y := Copies(outer, first, second, 1, 10), Copies(inner, first, second, 2, 9);
    assert x.members[0] in x.members && NestedIn(x.members[0], y.members[0]);
    assert x.members[1] in x.members && NestedIn(x.members[1], y.members[1]);
  }

  // Two twice-copied functions, each copy around a copied closure.
  function FactoryCopies(): seq<Entry> {
    [Copies("p", "a", "b", 1, 10), Copies("q", "c", "d", 1, 10),
     Copies("l", "a", "b", 2, 9), Copies("r", "c", "d", 2, 9)]
  }

  lemma FactoryCopiesEdges()
    ensures forall u, v :: 0 <= u < 4 && 0 <= v < 4 ==> EdgeQualifies(FactoryCopies()[u], FactoryCopies()[v], 1.0)
  {
    var order := FactoryCopies();
    assert "a"[0] == 'a' && "b"[0] == 'b' && "c"[0] == 'c' && "d"[0] == 'd';
    forall u, v | 0 <= u < 4 && 0 <= v < 4 ensures EdgeQualifies(order[u], order[v], 1.0) {
      assert order[u].members[0].path != order[v].members[1].path;
      CopiesQualify(order[u], order[v], order[u].members[0], order[v].members[1]);
    }
  }

  lemma FactoryCopiesApart(e: int)
    requires 0 <= e < 4
    ensures !(ContainsAny(FactoryCopies()[0], FactoryCopies()[e])
              && ContainsAny(FactoryCopies()[1], FactoryCopies()[e]))
  {
    assert "a"[0] == 'a' && "b"[0] == 'b' && "c"[0] == 'c' && "d"[0] == 'd';
    CopiesApart(FactoryCopies()[if e == 0 || e == 2 then 1 else 0], FactoryCopies()[e]);
  }

  lemma FactoryCopiesAllApart()
    ensures forall e :: 0 <= e < 4 ==>
              !(ContainsAny(FactoryCopies()[0], FactoryCopies()[e])
                && ContainsAny(FactoryCopies()[1], FactoryCopies()[e]))
  {
    forall e | 0 <= e < 4 {
      FactoryCopiesApart(e);
    }
  }

  lemma FactoryCopiesSwallow()
    ensures Swallows(FactoryCopies()[0], FactoryCopies()[2]) && Swallows(FactoryCopies()[1], FactoryCopies()[3])
  {
    CopiesSwallow("p", "l", "a", "b");
    CopiesSwallow("q", "r", "c", "d");
  }

  // ----- groups -----

  datatype Group = Group(similarity: real, nodeCount: int, members: seq<Member>)

  function Least(a: real, b: real): real {
    if a <= b then a else b
  }

  function LeastFrom(u: int, others: seq<int>, order: seq<Entry>): real
    requires 0 <= u < |order| && InOrder(others, order) && others != []
  {
    var first := Jaccard(order[u].branches, order[others[0]].branches);
    if |others| == 1 then first else Least(first, LeastFrom(u, others[1..], order))
  }

  // min over the pairs, before rounding.
  function Similarity(positions: seq<int>, order: seq<Entry>): real
    requires InOrder(positions, order) && |positions| > 1
  {
    var first := LeastFrom(positions[0], positions[1..], order);
    if |positions| == 2 then first else Least(first, Similarity(positions[1..], order))
  }

  lemma {:induction false} LeastFromAtLeast(u: int, others: seq<int>, order: seq<Entry>, t: real)
    requires 0 <= u < |order| && InOrder(others, order) && others != []
    ensures t <= LeastFrom(u, others, order) <==>
            forall j :: 0 <= j < |others| ==> t <= Jaccard(order[u].branches, order[others[j]].branches)
  {
    if |others| > 1 {
      LeastFromAtLeast(u, others[1..], order, t);
      assert forall j :: 0 < j < |others| ==> others[j] == others[1..][j - 1];
    }
  }

  // The reported similarity is the greatest lower bound of the pairwise similarities.
  lemma {:induction false} SimilarityAtLeast(positions: seq<int>, order: seq<Entry>, t: real)
    requires InOrder(positions, order) && |positions| > 1
    ensures t <= Similarity(positions, order) <==> forall i, j :: 0 <= i < j < |positions| ==>
              t <= Jaccard(order[positions[i]].branches, order[positions[j]].branches)
  {
    var rest := positions[1..];
    LeastFromAtLeast(positions[0], rest, order, t);
    assert forall j :: 0 < j < |positions| ==> positions[j] == rest[j - 1];
    if |positions| > 2 {
      SimilarityAtLeast(rest, order, t);
      assert forall i, j :: 0 < i < j < |positions| ==> positions[i] == rest[i - 1] && positions[j] == rest[j - 1];
    }
  }

  function LargestNodeCount(positions: seq<int>, order: seq<Entry>): int
    requires InOrder(positions, order) && positions != []
  {
    var first := order[positions[0]].nodeCount;
    if |positions| == 1 then first else Max(first, LargestNodeCount(positions[1..], order))
  }

  predicate MemberLe(a: Member, b: Member) {
    if a.path == b.path then a.startLine <= b.startLine else NameLe(a.path, b.path)
  }

  function GroupOf(positions: seq<int>, order: seq<Entry>): Group
    requires InOrder(positions, order) && |positions| > 1
  {
    Group(Similarity(positions, order), LargestNodeCount(positions, order),
          Sort(PrunedMembers(positions, order), MemberLe))
  }

  function NamesOf(members: seq<Member>): set<string> {
    set m | m in members :: m.qualifiedName
  }

  lemma NamesOfIff(members: seq<Member>, name: string)
    ensures name in NamesOf(members) <==> exists i :: 0 <= i < |members| && members[i].qualifiedName == name
  {
    if i :| 0 <= i < |members| && members[i].qualifiedName == name {
      assert members[i] in members;
    }
  }

  // ----- a group, without the functions that compute it -----

  // The similarity of some two entries, and no other two are less similar.
  ghost predicate LeastSimilarity(positions: seq<int>, order: seq<Entry>, x: real)
    requires InOrder(positions, order)
  {
    && (exists i, j :: 0 <= i < j < |positions| && x == SimilarityOf(positions, order, i, j))
    && (forall i, j :: 0 <= i < j < |positions| ==> x <= SimilarityOf(positions, order, i, j))
  }

  ghost function SimilarityOf(positions: seq<int>, order: seq<Entry>, i: nat, j: nat): real
    requires InOrder(positions, order) && i < |positions| && j < |positions|
  {
    Jaccard(order[positions[i]].branches, order[positions[j]].branches)
  }

  // The node count of some entry, and no other entry has more nodes.
  ghost predicate GreatestNodeCount(positions: seq<int>, order: seq<Entry>, n: int)
    requires InOrder(positions, order)
  {
    && (exists i :: 0 <= i < |positions| && n == order[positions[i]].nodeCount)
    && (forall i :: 0 <= i < |positions| ==> order[positions[i]].nodeCount <= n)
  }

  // m is part of a member of one of the entries.
  ghost predicate Enclosed(positions: seq<int>, order: seq<Entry>, m: Member)
    requires InOrder(positions, order)
  {
    exists p, o :: p in positions && o in order[p].members && NestedIn(o, m)
  }

  // How often the entries list m.
  ghost function Occurrences(positions: seq<int>, order: seq<Entry>, m: Member): nat
    requires InOrder(positions, order)
  {
    if positions == [] then 0 else multiset(order[positions[0]].members)[m] + Occurrences(positions[1..], order, m)
  }

  // The members that are not part of another one, each as often as the entries list it, by path and line; those that
  // start on one line stay in the order of the entries.
  ghost predicate Displays(members: seq<Member>, positions: seq<int>, order: seq<Entry>)
    requires InOrder(positions, order)
  {
    && (forall m :: multiset(members)[m] ==
          if Enclosed(positions, order, m) then 0 else Occurrences(positions, order, m))
    && (forall i, j :: 0 <= i < j < |members| ==> PathThenLine(members[i], members[j]))
    && (forall e :: Ties(members, e, MemberLe) == Ties(PrunedMembers(positions, order), e, MemberLe))
  }

  ghost predicate PathThenLine(a: Member, b: Member) {
    NameLe(a.path, b.path) && (a.path == b.path ==> a.startLine <= b.startLine)
  }

  lemma {:induction false} LargestIsGreatest(positions: seq<int>, order: seq<Entry>)
    requires InOrder(positions, order) && positions != []
    ensures GreatestNodeCount(positions, order, LargestNodeCount(positions, order))
  {
    if |positions| > 1 {
      var rest := positions[1..];
      LargestIsGreatest(rest, order);
      var i :| 0 <= i < |rest| && LargestNodeCount(rest, order) == order[rest[i]].nodeCount;
      assert positions[i + 1] == rest[i];
      assert forall k :: 0 < k < |positions| ==> positions[k] == rest[k - 1];
    }
  }

  lemma {:induction false} LeastFromAttained(u: int, others: seq<int>, order: seq<Entry>) returns (j: nat)
    requires 0 <= u < |order| && InOrder(others, order) && others != []
    ensures j < |others| && LeastFrom(u, others, order) == Jaccard(order[u].branches, order[others[j]].branches)
  {
    j := 0;
    if |others| > 1 && Jaccard(order[u].branches, order[others[0]].branches) > LeastFrom(u, others[1..], order) {
      var k := LeastFromAttained(u, others[1..], order);
      j := k + 1;
    }
  }

  lemma {:induction false} SimilarityAttained(positions: seq<int>, order: seq<Entry>) returns (i: nat, j: nat)
    requires InOrder(positions, order) && |positions| > 1
    ensures i < j < |positions| && Similarity(positions, order) == SimilarityOf(positions, order, i, j)
  {
    var rest := positions[1..];
    var k := LeastFromAttained(positions[0], rest, order);
    i, j := 0, k + 1;
    if |positions| > 2 && LeastFrom(positions[0], rest, order) > Similarity(rest, order) {
      i, j := SimilarityAttained(rest, order);
      i, j := i + 1, j + 1;
    }
  }

  lemma SimilarityIsLeast(positions: seq<int>, order: seq<Entry>)
    requires InOrder(positions, order) && |positions| > 1
    ensures LeastSimilarity(positions, order, Similarity(positions, order))
  {
    SimilarityAtLeast(positions, order, Similarity(positions, order));
    var i, j := SimilarityAttained(positions, order);
  }

  lemma {:induction false} AllMembersOccur(positions: seq<int>, order: seq<Entry>, m: Member)
    requires InOrder(positions, order)
    ensures multiset(AllMembers(positions, order))[m] == Occurrences(positions, order, m)
  {
    if positions != [] {
      AllMembersOccur(positions[1..], order, m);
      var head, rest := order[positions[0]].members, AllMembers(positions[1..], order);
      assert multiset(head + rest)[m] == multiset(head)[m] + multiset(rest)[m];
    }
  }

  lemma EnclosedIff(positions: seq<int>, order: seq<Entry>, m: Member)
    requires InOrder(positions, order)
    ensures Enclosed(positions, order, m) <==> Contained(m, AllMembers(positions, order))
  {
    if o :| o in AllMembers(positions, order) && NestedIn(o, m) {
      AllMembersMeaning(positions, order, o);
    }
    if p, o :| p in positions && o in order[p].members && NestedIn(o, m) {
      AllMembersMeaning(positions, order, o);
    }
  }

  lemma MemberLePreorder()
    ensures TotalPreorder(MemberLe)
  {
    NameLeTotalOrder();
  }

  lemma SortDisplays(positions: seq<int>, order: seq<Entry>)
    requires InOrder(positions, order)
    ensures Displays(Sort(PrunedMembers(positions, order), MemberLe), positions, order)
  {
    var kept := PrunedMembers(positions, order);
    MemberLePreorder();
    SortPermutes(kept, MemberLe);
    SortOrdered(kept, MemberLe);
    forall m
      ensures multiset(Sort(kept, MemberLe))[m] ==
              if Enclosed(positions, order, m) then 0 else Occurrences(positions, order, m)
    {
      AllMembersOccur(positions, order, m);
      EnclosedIff(positions, order, m);
      OutermostKeeps(AllMembers(positions, order), AllMembers(positions, order), m);
    }
    forall e ensures Ties(Sort(kept, MemberLe), e, MemberLe) == Ties(kept, e, MemberLe) {
      SortStable(kept, e, MemberLe);
    }
    MemberLeOrders(Sort(kept, MemberLe));
  }

  lemma MemberLeOrders(members: seq<Member>)
    requires Ordered(members, MemberLe)
    ensures forall i, j :: 0 <= i < j < |members| ==> PathThenLine(members[i], members[j])
  {
    forall i, j | 0 <= i < j < |members| ensures PathThenLine(members[i], members[j]) {
      assert MemberLe(members[i], members[j]);
      LexTotal(members[i].path, members[i].path, CharLe);
    }
  }

  // What is displayed is what is kept.
  lemma DisplaysKept(members: seq<Member>, positions: seq<int>, order: seq<Entry>)
    requires InOrder(positions, order) && Displays(members, positions, order)
    ensures |members| == |PrunedMembers(positions, order)|
    ensures NamesOf(members) == NamesOf(PrunedMembers(positions, order))
    ensures forall m :: m in members <==> m in PrunedMembers(positions, order)
  {
    var all, kept := AllMembers(positions, order), PrunedMembers(positions, order);
    forall m ensures multiset(members)[m] == multiset(kept)[m] {
      AllMembersOccur(positions, order, m);
      EnclosedIff(positions, order, m);
      OutermostKeeps(all, all, m);
    }
    assert multiset(members) == multiset(kept);
    SameElements(members, kept);
  }

  ghost predicate GroupFrom(order: seq<Entry>, t: real, group: Group, positions: seq<int>) {
    && PairwiseSimilar(positions, order, t)
    && Displays(group.members, positions, order) && |group.members| >= 2
    && LeastSimilarity(positions, order, group.similarity) && group.similarity >= t
    && GreatestNodeCount(positions, order, group.nodeCount)
  }

  lemma GroupOfFrom(order: seq<Entry>, t: real, positions: seq<int>)
    requires PairwiseSimilar(positions, order, t) && |PrunedMembers(positions, order)| >= 2
    ensures GroupFrom(order, t, GroupOf(positions, order), positions)
    ensures NamesOf(GroupOf(positions, order).members) == NamesOf(PrunedMembers(positions, order))
  {
    PairwiseSimilarity(order, t, positions);
    SimilarityIsLeast(positions, order);
    LargestIsGreatest(positions, order);
    SortDisplays(positions, order);
    DisplaysKept(GroupOf(positions, order).members, positions, order);
  }

  // The report so far: group k comes from origins[k], and no two groups have the same set of qualified names.
  ghost predicate Reported(order: seq<Entry>, t: real, groups: seq<Group>, origins: seq<seq<int>>,
                           seen: set<set<string>>) {
    && |groups| == |origins|
    && (forall k :: 0 <= k < |groups| ==> GroupFrom(order, t, groups[k], origins[k]))
    && (forall i, j :: 0 <= i < j < |groups| ==> NamesOf(groups[i].members) != NamesOf(groups[j].members))
    && (forall names :: names in seen <==> Named(groups, names))
  }

  lemma PairwiseSimilarity(order: seq<Entry>, t: real, positions: seq<int>)
    requires PairwiseSimilar(positions, order, t)
    ensures Similarity(positions, order) >= t
  {
    forall i, j | 0 <= i < j < |positions|
      ensures t <= Jaccard(order[positions[i]].branches, order[positions[j]].branches)
    {
      assert positions[i] in positions && positions[j] in positions;
      assert EdgeQualifies(order[positions[i]], order[positions[j]], t);
    }
    SimilarityAtLeast(positions, order, t);
  }

  ghost predicate Named(groups: seq<Group>, names: set<string>) {
    exists k :: 0 <= k < |groups| && NamesOf(groups[k].members) == names
  }

  lemma NamedMore(groups: seq<Group>, group: Group, names: set<string>)
    ensures Named(groups + [group], names) <==> Named(groups, names) || NamesOf(group.members) == names
  {
    var groups' := groups + [group];
    if k :| 0 <= k < |groups| && NamesOf(groups[k].members) == names {
      assert groups'[k] == groups[k];
    }
    assert groups'[|groups|] == group;
  }

  lemma NewNames(groups: seq<Group>, group: Group)
    requires !Named(groups, NamesOf(group.members))
    ensures forall k :: 0 <= k < |groups| ==> NamesOf(groups[k].members) != NamesOf(group.members)
  {
  }

  lemma ReportedMore(order: seq<Entry>, t: real, positions: seq<int>, group: Group, groups: seq<Group>,
                     origins: seq<seq<int>>, seen: set<set<string>>)
    requires Reported(order, t, groups, origins, seen) && GroupFrom(order, t, group, positions)
    requires NamesOf(group.members) !in seen
    ensures Reported(order, t, groups + [group], origins + [positions], seen + {NamesOf(group.members)})
  {
    var groups', seen' := groups + [group], seen + {NamesOf(group.members)};
    NewNames(groups, group);
    forall names ensures names in seen' <==> Named(groups', names) {
      NamedMore(groups, group, names);
    }
    forall i, j | 0 <= i < j < |groups'| ensures NamesOf(groups'[i].members) != NamesOf(groups'[j].members) {
      assert groups'[i] == groups[i];
    }
  }

  // ----- which groups are reported, and in which order -----

  // The list shows two members or more, with these names.
  ghost predicate ShowsNames(s: seq<int>, order: seq<Entry>, names: set<string>) {
    InOrder(s, order) && |PrunedMembers(s, order)| >= 2 && NamesOf(PrunedMembers(s, order)) == names
  }

  // s shows two members or more, and nothing before it the same names.
  ghost predicate IsNew(earlier: seq<seq<int>>, s: seq<int>, order: seq<Entry>) {
    exists names :: ShowsNames(s, order, names) && forall e :: e in earlier ==> !ShowsNames(e, order, names)
  }

  // What is reported of a list of emissions.
  ghost function FirstShown(emissions: seq<seq<int>>, order: seq<Entry>): seq<seq<int>> {
    if emissions == [] then []
    else
      var last := |emissions| - 1;
      FirstShown(emissions[..last], order)
      + if IsNew(emissions[..last], emissions[last], order) then [emissions[last]] else []
  }

  ghost function AllEmissions(cliques: seq<seq<int>>, order: seq<Entry>): seq<seq<int>> {
    if cliques == [] then []
    else
      var last := |cliques| - 1;
      AllEmissions(cliques[..last], order)
      + if InOrder(cliques[last], order) then Emissions(cliques[last], order) else []
  }

  // Once the emissions in `done` have been treated.
  ghost predicate Traced(order: seq<Entry>, done: seq<seq<int>>, origins: seq<seq<int>>, seen: set<set<string>>) {
    && origins == FirstShown(done, order)
    && forall names :: names in seen <==> exists e :: e in done && ShowsNames(e, order, names)
  }

  lemma TracedMore(order: seq<Entry>, done: seq<seq<int>>, origins: seq<seq<int>>, seen: set<set<string>>, s: seq<int>)
    requires Traced(order, done, origins, seen) && InOrder(s, order)
    ensures var names := NamesOf(PrunedMembers(s, order));
            if |PrunedMembers(s, order)| >= 2 && names !in seen
              then Traced(order, done + [s], origins + [s], seen + {names})
              else Traced(order, done + [s], origins, seen)
  {
    var longer := done + [s];
    assert longer[..|done|] == done && longer[|done|] == s;
    assert forall e :: e in longer <==> e in done || e == s;
    var names := NamesOf(PrunedMembers(s, order));
    if |PrunedMembers(s, order)| >= 2 {
      assert ShowsNames(s, order, names);
    }
    if e :| e in done && ShowsNames(e, order, names) {
      assert names in seen;
    }
    assert IsNew(done, s, order) <==> |PrunedMembers(s, order)| >= 2 && names !in seen;
  }

  lemma {:induction false} FirstShownIn(emissions: seq<seq<int>>, order: seq<Entry>, o: seq<int>)
    requires o in FirstShown(emissions, order)
    ensures o in emissions
  {
    var last := |emissions| - 1;
    if o in FirstShown(emissions[..last], order) {
      FirstShownIn(emissions[..last], order, o);
    }
  }

  lemma {:induction false} AllEmissionsIff(cliques: seq<seq<int>>, order: seq<Entry>, s: seq<int>)
    ensures s in AllEmissions(cliques, order) <==> EmittedBy(order, cliques, s)
  {
    if cliques != [] {
      var last := |cliques| - 1;
      AllEmissionsIff(cliques[..last], order, s);
      assert forall c :: c in cliques <==> c in cliques[..last] || c == cliques[last];
    }
  }

  method EmitGroup(order: seq<Entry>, t: real, positions: seq<int>, groups: seq<Group>,
                   ghost origins: seq<seq<int>>, seen: set<set<string>>, ghost done: seq<seq<int>>)
    returns (groups': seq<Group>, ghost origins': seq<seq<int>>, seen': set<set<string>>)
    requires Reported(order, t, groups, origins, seen) && PairwiseSimilar(positions, order, t)
    requires Traced(order, done, origins, seen)
    ensures Reported(order, t, groups', origins', seen') && Traced(order, done + [positions], origins', seen')
    ensures groups <= groups'
  {
    groups', origins', seen' := groups, origins, seen;
    var members := PrunedMembers(positions, order);
    TracedMore(order, done, origins, seen, positions);
    if |members| >= 2 && NamesOf(members) !in seen {
      GroupOfFrom(order, t, positions);
      ReportedMore(order, t, positions, GroupOf(positions, order), groups, origins, seen);
      seen' := seen + {NamesOf(members)};
      groups' := groups + [GroupOf(positions, order)];
      origins' := origins + [positions];
    }
  }

  // Everything the clique emits is reported, under its own name or as a set of names reported before.
  ghost predicate CliqueReported(seen: set<set<string>>, clique: seq<int>, order: seq<Entry>) {
    InOrder(clique, order) && forall s, names :: s in Emissions(clique, order) && ShowsNames(s, order, names) ==>
      names in seen
  }

  lemma NoneDone<T>(done: seq<T>, xs: seq<T>)
    ensures done + xs[..0] == done && done + xs[..|xs|] == done + xs
  {
    assert xs[..|xs|] == xs;
  }

  lemma MoreDone<T>(done: seq<T>, xs: seq<T>, j: nat)
    requires j < |xs|
    ensures done + xs[..j] + [xs[j]] == done + xs[..j + 1]
  {
  }

  lemma EmittedAll(order: seq<Entry>, done: seq<seq<int>>, clique: seq<int>, origins: seq<seq<int>>,
                   seen: set<set<string>>)
    requires InOrder(clique, order) && Traced(order, done + Emissions(clique, order), origins, seen)
    ensures CliqueReported(seen, clique, order)
  {
    forall s, names | s in Emissions(clique, order) && ShowsNames(s, order, names) ensures names in seen {
      assert s in done + Emissions(clique, order);
    }
  }

  method EmitClique(order: seq<Entry>, t: real, clique: seq<int>, groups: seq<Group>, ghost origins: seq<seq<int>>,
                    seen: set<set<string>>, ghost done: seq<seq<int>>)
    returns (groups': seq<Group>, ghost origins': seq<seq<int>>, seen': set<set<string>>)
    requires Reported(order, t, groups, origins, seen) && PairwiseSimilar(clique, order, t)
    requires Traced(order, done, origins, seen)
    ensures Reported(order, t, groups', origins', seen') && CliqueReported(seen', clique, order)
    ensures Traced(order, done + Emissions(clique, order), origins', seen')
    ensures groups <= groups'
  {
    groups', origins', seen' := groups, origins, seen;
    var emissions := Emissions(clique, order);
    NoneDone(done, emissions);
    for j := 0 to |emissions|
      invariant Reported(order, t, groups', origins', seen') && groups <= groups'
      invariant Traced(order, done + emissions[..j], origins', seen')
    {
      assert emissions[j] in emissions;
      EmissionPairwise(clique, order, t, emissions[j]);
      groups', origins', seen' := EmitGroup(order, t, emissions[j], groups', origins', seen', done + emissions[..j]);
      MoreDone(done, emissions, j);
    }
    EmittedAll(order, done, clique, origins', seen');
  }

  ghost predicate EmittedBy(order: seq<Entry>, cliques: seq<seq<int>>, o: seq<int>) {
    exists c :: c in cliques && InOrder(c, order) && o in Emissions(c, order)
  }

  ghost predicate CliquesReported(seen: set<set<string>>, cliques: seq<seq<int>>, order: seq<Entry>) {
    forall k :: 0 <= k < |cliques| ==> CliqueReported(seen, cliques[k], order)
  }

  lemma TracedCliques(order: seq<Entry>, cliques: seq<seq<int>>, origins: seq<seq<int>>, seen: set<set<string>>)
    requires Traced(order, AllEmissions(cliques, order), origins, seen)
    requires forall k :: 0 <= k < |cliques| ==> InOrder(cliques[k], order)
    ensures CliquesReported(seen, cliques, order)
  {
    forall k | 0 <= k < |cliques| ensures CliqueReported(seen, cliques[k], order) {
      forall s, names | s in Emissions(cliques[k], order) && ShowsNames(s, order, names) ensures names in seen {
        assert cliques[k] in cliques && EmittedBy(order, cliques, s);
        AllEmissionsIff(cliques, order, s);
      }
    }
  }

  // The groups come from the emissions of the cliques, in their order, without those that show fewer than two members
  // or the names of an earlier one.
  method EmitGroups(order: seq<Entry>, t: real, cliques: seq<seq<int>>)
    returns (groups: seq<Group>, ghost origins: seq<seq<int>>, ghost seen: set<set<string>>)
    requires forall k :: 0 <= k < |cliques| ==> PairwiseSimilar(cliques[k], order, t)
    ensures Reported(order, t, groups, origins, seen)
    ensures origins == FirstShown(AllEmissions(cliques, order), order)
    ensures CliquesReported(seen, cliques, order)
  {
    groups, origins := [], [];
    var shown: set<set<string>> := {};
    for i := 0 to |cliques|
      invariant Reported(order, t, groups, origins, shown)
      invariant Traced(order, AllEmissions(cliques[..i], order), origins, shown)
    {
      assert cliques[..i + 1][..i] == cliques[..i];
      groups, origins, shown :=
        EmitClique(order, t, cliques[i], groups, origins, shown, AllEmissions(cliques[..i], order));
    }
    assert cliques[..|cliques|] == cliques;
    TracedCliques(order, cliques, origins, shown);
    seen := shown;
  }

  // The cliques of the threshold graph are what the comments call groups: every two entries clear the threshold.
  lemma CliquePairwise(order: seq<Entry>, pairs: set<(nat, nat)>, t: real, g: Graph, clique: seq<int>)
    requires PairsOf(order, pairs) && ThresholdGraph(order, pairs, t, g)
    requires Elements(clique) in MaximalCliques(g) && clique == SortedVertices(Elements(clique))
    ensures PairwiseSimilar(clique, order, t)
  {
    var c := Elements(clique);
    DistinctCount(clique);
    forall u | u in c ensures 0 <= u < |order| {
      assert u in g && g[u] != {};
      var v :| v in g[u];
      assert Linked(order, pairs, t, u, v);
    }
    forall i | 0 <= i < |clique| ensures 0 <= clique[i] < |order| {
      assert clique[i] in c;
    }
    forall u, v | u in clique && v in clique && u != v ensures EdgeQualifies(order[u], order[v], t) {
      assert u in c && v in c && v in g[u];
      assert Linked(order, pairs, t, u, v);
    }
  }

  // What completeness means for one pair of entries: a listed clique with both of them is reported.
  ghost predicate Covered(order: seq<Entry>, t: real, cliques: seq<seq<int>>, seen: set<set<string>>, l: int, r: int) {
    exists k :: 0 <= k < |cliques| && PairwiseSimilar(cliques[k], order, t) && l in cliques[k] && r in cliques[k]
                && CliqueReported(seen, cliques[k], order)
  }

  // Every pair of entries at the threshold that is more than nesting lies in a listed clique whose emissions are all
  // reported.
  ghost predicate AllCovered(order: seq<Entry>, t: real, cliques: seq<seq<int>>, seen: set<set<string>>) {
    forall l: nat, r: nat :: l < r < |order| && t <= Jaccard(order[l].branches, order[r].branches)
                             && !OnlyNested(order[l].members, order[r].members)
                             ==> Covered(order, t, cliques, seen, l, r)
  }

  // Where the groups come from: the pairs found, their threshold graph, the cliques listed, what each group was emitted
  // for, and the sets of names reported.
  datatype Provenance = Provenance(pairs: set<(nat, nat)>, graph: Graph, cliques: seq<seq<int>>,
                                   origins: seq<seq<int>>, seen: set<set<string>>)

  ghost predicate Explains(order: seq<Entry>, t: real, candidates: set<(nat, nat)>, groups: seq<Group>,
                           from: Provenance) {
    && from.pairs <= candidates && ThresholdGraph(order, from.pairs, t, from.graph)
    && CliqueList(from.graph, from.cliques)
    && Reported(order, t, groups, from.origins, from.seen)
    && from.origins == FirstShown(AllEmissions(from.cliques, order), order)
  }

  ghost predicate Complete(order: seq<Entry>, t: real, candidates: set<(nat, nat)>, from: Provenance) {
    && from.pairs == candidates && CliquesOf(from.cliques) == MaximalCliques(from.graph)
    && (t > 0.0 ==> AllCovered(order, t, from.cliques, from.seen))
  }

  // Groups come from maximal cliques and honour the pairwise invariant whatever was cut short.  They are marked
  // truncated exactly when a candidate pair or a clique beyond its budget exists; otherwise every maximal clique is
  // listed and, for a positive threshold, no pair is left out.
  method SimilarGroupList(order: seq<Entry>, t: real, maxPairs: int, maxGroups: int)
    returns (groups: seq<Group>, truncated: bool)
    ensures exists from ::
              && Explains(order, t, Candidates(t, order), groups, from)
              && (truncated <==> |Candidates(t, order)| > Max(maxPairs, 0)
                                 || |MaximalCliques(from.graph)| > maxGroups)
              && (!truncated ==> Complete(order, t, Candidates(t, order), from))
  {
    var pairs, pairsTruncated;
    pairs, pairsTruncated := CandidatePairSet(order, t, maxPairs);
    var g := ThresholdAdjacency(order, pairs, t);
    ThresholdGraphSimple(order, pairs, t, g);
    var cliques, cliquesTruncated := MaximalCliqueList(g, maxGroups);
    truncated := pairsTruncated || cliquesTruncated;
    forall k | 0 <= k < |cliques| ensures PairwiseSimilar(cliques[k], order, t) {
      assert cliques[k] in cliques;
      CliquePairwise(order, pairs, t, g, cliques[k]);
    }
    ghost var origins, seen;
    groups, origins, seen := EmitGroups(order, t, cliques);
    ghost var from := Provenance(pairs, g, cliques, origins, seen);
    assert Explains(order, t, Candidates(t, order), groups, from);
    if !truncated && t > 0.0 {
      PairsCovered(order, pairs, t, g, cliques, seen);
    }
  }

  // With a qualifying pair found and every maximal clique reported, the pair is not left out.
  lemma PairCovered(order: seq<Entry>, t: real, g: Graph, cliques: seq<seq<int>>, seen: set<set<string>>,
                    l: nat, r: nat)
    requires SimpleGraph(g) && l in g && r in g[l] && CliquesOf(cliques) == MaximalCliques(g)
    requires forall k :: 0 <= k < |cliques| ==> PairwiseSimilar(cliques[k], order, t)
    requires CliquesReported(seen, cliques, order)
    ensures Covered(order, t, cliques, seen, l, r)
  {
    var c := EdgeInMaximalClique(g, l, r);
    assert c in CliquesOf(cliques);
    var k :| 0 <= k < |cliques| && Elements(cliques[k]) == c;
    assert l in cliques[k] && r in cliques[k];
  }

  lemma PairsCovered(order: seq<Entry>, pairs: set<(nat, nat)>, t: real, g: Graph, cliques: seq<seq<int>>,
                     seen: set<set<string>>)
    requires t > 0.0 && PairsOf(order, pairs) && ThresholdGraph(order, pairs, t, g)
    requires forall l: nat, r: nat ::
               l < r < |order| && t <= Jaccard(order[l].branches, order[r].branches) ==> (l, r) in pairs
    requires CliquesOf(cliques) == MaximalCliques(g)
    requires forall k :: 0 <= k < |cliques| ==> PairwiseSimilar(cliques[k], order, t)
    requires CliquesReported(seen, cliques, order)
    ensures AllCovered(order, t, cliques, seen)
  {
    ThresholdGraphSimple(order, pairs, t, g);
    forall l: nat, r: nat | l < r < |order| && t <= Jaccard(order[l].branches, order[r].branches)
                            && !OnlyNested(order[l].members, order[r].members)
      ensures Covered(order, t, cliques, seen, l, r)
    {
      EdgeMeaning(order[l], order[r], t);
      assert Linked(order, pairs, t, l, r);
      PairCovered(order, t, g, cliques, seen, l, r);
    }
  }

  // A listed clique of flat entries yields a group with the names of its members.
  lemma FlatCliqueGroup(order: seq<Entry>, t: real, groups: seq<Group>, origins: seq<seq<int>>,
                        seen: set<set<string>>, clique: seq<int>) returns (k: nat)
    requires Reported(order, t, groups, origins, seen)
    requires PairwiseSimilar(clique, order, t) && CliqueReported(seen, clique, order)
    requires forall p :: p in clique ==> Flat(order[p])
    ensures k < |groups| && NamesOf(groups[k].members) == NamesOf(PrunedMembers(clique, order))
  {
    CliqueShowsTwo(clique, order, t);
    assert clique in Emissions(clique, order) by {
      assert Emissions(clique, order)[0] == clique;
    }
    assert ShowsNames(clique, order, NamesOf(PrunedMembers(clique, order)));
    k :| 0 <= k < |groups| && NamesOf(groups[k].members) == NamesOf(PrunedMembers(clique, order));
  }

  lemma EdgeLinked(order: seq<Entry>, t: real, g: Graph, l: nat, r: nat)
    requires t > 0.0 && ThresholdGraph(order, Candidates(t, order), t, g)
    requires l < r < |order| && EdgeQualifies(order[l], order[r], t)
    ensures l in g && r in g && r in g[l] && l in g[r]
  {
    EdgeMeaning(order[l], order[r], t);
    EdgeSymmetric(order[l], order[r], t);
    QualifyingCandidate(t, order, l, r);
    assert Linked(order, Candidates(t, order), t, l, r);
    assert Linked(order, Candidates(t, order), t, r, l);
  }

  lemma SomeElement<T>(xs: set<T>) returns (x: T)
    requires xs != {}
    ensures x in xs
  {
    x :| x in xs;
  }

  lemma VertexIsPosition(order: seq<Entry>, pairs: set<(nat, nat)>, t: real, g: Graph, u: int)
    requires ThresholdGraph(order, pairs, t, g) && u in g
    ensures 0 <= u < |order|
  {
    assert g[u] != {};
    var v := SomeElement(g[u]);
    assert Linked(order, pairs, t, u, v);
  }

  ghost predicate AllJoined(order: seq<Entry>, t: real) {
    t > 0.0 && |order| > 1 && forall u, v :: 0 <= u < v < |order| ==> EdgeQualifies(order[u], order[v], t)
  }

  lemma PositionsLinked(order: seq<Entry>, t: real, g: Graph, u: int, v: int)
    requires AllJoined(order, t) && ThresholdGraph(order, Candidates(t, order), t, g)
    requires 0 <= u < |order| && 0 <= v < |order| && u != v
    ensures u in g && v in g[u]
  {
    if u < v {
      EdgeLinked(order, t, g, u, v);
    } else {
      EdgeLinked(order, t, g, v, u);
    }
  }

  // When every two entries are joined, the only maximal clique has all of them.
  lemma CompleteGraph(order: seq<Entry>, t: real, g: Graph, c: set<int>)
    requires AllJoined(order, t) && ThresholdGraph(order, Candidates(t, order), t, g)
    requires c in MaximalCliques(g)
    ensures forall u :: u in c <==> 0 <= u < |order|
  {
    forall u ensures u in g <==> 0 <= u < |order| {
      if u in g {
        VertexIsPosition(order, Candidates(t, order), t, g, u);
      } else if 0 <= u < |order| {
        PositionsLinked(order, t, g, u, if u == 0 then 1 else 0);
      }
    }
    forall u, v | u in g && v in g && u != v ensures v in g[u] {
      PositionsLinked(order, t, g, u, v);
    }
    assert Clique(g, g.Keys);
  }

  // So every group of a complete report is emitted for a list of all positions.
  lemma SoleClique(order: seq<Entry>, t: real, groups: seq<Group>, from: Provenance,
                   o: seq<int>) returns (c: seq<int>)
    requires AllJoined(order, t) && o in from.origins && from.pairs == Candidates(t, order)
    requires Explains(order, t, Candidates(t, order), groups, from)
    ensures InOrder(c, order) && o in Emissions(c, order)
    ensures NoDuplicates(c) && forall p :: p in c <==> 0 <= p < |order|
  {
    FirstShownIn(AllEmissions(from.cliques, order), order, o);
    AllEmissionsIff(from.cliques, order, o);
    c :| c in from.cliques && InOrder(c, order) && o in Emissions(c, order);
    assert Elements(c) in MaximalCliques(from.graph) && c == SortedVertices(Elements(c));
    SolePositions(order, t, from, c);
  }

  lemma SolePositions(order: seq<Entry>, t: real, from: Provenance, c: seq<int>)
    requires AllJoined(order, t) && ThresholdGraph(order, from.pairs, t, from.graph)
    requires from.pairs == Candidates(t, order)
    requires Elements(c) in MaximalCliques(from.graph) && c == SortedVertices(Elements(c))
    ensures NoDuplicates(c) && forall p :: p in c <==> 0 <= p < |order|
  {
    CompleteGraph(order, t, from.graph, Elements(c));
    assert forall p :: p in c <==> p in Elements(c);
  }

  // All entries are joined, p swallows l, q swallows r, and no entry has members inside both p and q.
  ghost predicate Hides(order: seq<Entry>, t: real, l: nat, r: nat, p: nat, q: nat) {
    && AllJoined(order, t) && l < |order| && r < |order| && p < |order| && q < |order|
    && Swallows(order[p], order[l]) && Swallows(order[q], order[r])
    && forall e :: 0 <= e < |order| ==> !(ContainsAny(order[p], order[e]) && ContainsAny(order[q], order[e]))
  }

  lemma HiddenIn(order: seq<Entry>, t: real, l: nat, r: nat, p: nat, q: nat, c: seq<int>, o: seq<int>)
    requires Hides(order, t, l, r, p, q) && InOrder(c, order) && o in Emissions(c, order)
    requires NoDuplicates(c) && forall x :: x in c <==> 0 <= x < |order|
    ensures !ShowsBoth(o, order, l, r)
  {
    PairHidden(c, order, l, r, p, q, o);
  }

  lemma JoinedPairHidden(order: seq<Entry>, t: real, groups: seq<Group>, from: Provenance,
                         o: seq<int>, l: nat, r: nat, p: nat, q: nat)
    requires Hides(order, t, l, r, p, q)
    requires o in from.origins && from.pairs == Candidates(t, order)
    requires Explains(order, t, Candidates(t, order), groups, from)
    ensures !ShowsBoth(o, order, l, r)
  {
    var c := SoleClique(order, t, groups, from, o);
    HiddenIn(order, t, l, r, p, q, c, o);
  }

  lemma FactoryCopiesJoined()
    ensures AllJoined(FactoryCopies(), 1.0)
  {
    FactoryCopiesEdges();
  }

  lemma HidesIn(order: seq<Entry>)
    requires |order| == 4 && AllJoined(order, 1.0) && Swallows(order[0], order[2]) && Swallows(order[1], order[3])
    requires forall e :: 0 <= e < 4 ==> !(ContainsAny(order[0], order[e]) && ContainsAny(order[1], order[e]))
    ensures Hides(order, 1.0, 2, 3, 0, 1)
  {
  }

  // Such a pair exists: in a complete report of these four entries, the closures, which are at the threshold and not
  // nested, are a pair that no group shows.
  lemma HiddenPairExists(order: seq<Entry>, groups: seq<Group>, from: Provenance,
                         o: seq<int>)
    requires order == FactoryCopies() && o in from.origins
    requires Explains(order, 1.0, Candidates(1.0, order), groups, from)
    requires Complete(order, 1.0, Candidates(1.0, order), from)
    ensures EdgeQualifies(order[2], order[3], 1.0) && !ShowsBoth(o, order, 2, 3)
  {
    FactoryCopiesJoined();
    FactoryCopiesSwallow();
    FactoryCopiesAllApart();
    HidesIn(order);
    JoinedPairHidden(order, 1.0, groups, from, o, 2, 3, 0, 1);
  }
}
