/**
 Liveness of symbols (codebase_rag/dead_code.py, _walk and the expansion rounds of dead_code_from_graph).

 The roots are taken as given.  Sets that the source passes by reference and mutates are passed in and returned.
 */
module DeadCode {
  import opened Orders

  type Symbol = string

  type Edges = map<Symbol, set<Symbol>>

  // traversal: calls and references, and with classes as candidates also instantiations and inheritance.  overriders:
  // from an overridden method to its overriders.  classes: from a function to the classes defined in it.  methods: from
  // a class to its methods.
  datatype SymbolGraph = SymbolGraph(traversal: Edges, overriders: Edges, classes: Edges, methods: Edges)

  function Successors(edges: Edges, x: Symbol): set<Symbol> {
    if x in edges then edges[x] else {}
  }

  function Image(edges: Edges, xs: set<Symbol>): set<Symbol> {
    set x, y | x in xs && y in Successors(edges, x) :: y
  }

  function Targets(edges: Edges): set<Symbol> {
    set x, y | x in edges && y in edges[x] :: y
  }

  function AllTargets(g: SymbolGraph): set<Symbol> {
    Targets(g.traversal) + Targets(g.overriders) + Targets(g.classes) + Targets(g.methods)
  }

  // ----- following edges -----

  lemma FewerLeft(universe: set<Symbol>, live: set<Symbol>, found: set<Symbol>)
    requires found <= universe && found !! live && found != {}
    ensures |universe - (live + found)| < |universe - live|
  {
    SubsetCount(universe - (live + found), universe - live);
    var x :| x in found;
    assert x in universe - live && x !in universe - (live + found);
  }

  // `live` and everything reached from `frontier` through symbols that were not live, level by level.
  function Walked(edges: Edges, frontier: set<Symbol>, live: set<Symbol>): set<Symbol>
    decreases |Targets(edges) - live|
  {
    var found := Image(edges, frontier) - live;
    if found == {} then live
    else
      FewerLeft(Targets(edges), live, found);
      Walked(edges, found, live + found)
  }

  // x has been followed: it is where the walk starts, or the walk has come across it.
  predicate Follows(frontier: set<Symbol>, live: set<Symbol>, x: Symbol) {
    x in frontier || x !in live
  }

  // s contains `live` and answers for what was followed.
  ghost predicate Answers(edges: Edges, frontier: set<Symbol>, live: set<Symbol>, w: set<Symbol>, s: set<Symbol>) {
    live <= s && forall x :: x in s && x in w && Follows(frontier, live, x) ==> Successors(edges, x) <= s
  }

  ghost predicate Forced(edges: Edges, frontier: set<Symbol>, live: set<Symbol>, w: set<Symbol>) {
    forall s: set<Symbol> :: Answers(edges, frontier, live, w, s) ==> w <= s
  }

  // w is the least set with `live` and with what every symbol it follows calls.
  ghost predicate LeastFrom(edges: Edges, frontier: set<Symbol>, live: set<Symbol>, w: set<Symbol>) {
    && live <= w
    && (forall x :: x in w && Follows(frontier, live, x) ==> Successors(edges, x) <= w)
    && Forced(edges, frontier, live, w)
  }

  lemma {:induction false} WalkedLeast(edges: Edges, frontier: set<Symbol>, live: set<Symbol>)
    requires frontier <= live
    ensures LeastFrom(edges, frontier, live, Walked(edges, frontier, live))
    decreases |Targets(edges) - live|
  {
    var found := Image(edges, frontier) - live;
    FrontierFound(edges, frontier, live, found);
    if found == {} {
      assert LeastFrom(edges, frontier, live, live);
    } else {
      FewerLeft(Targets(edges), live, found);
      WalkedLeast(edges, found, live + found);
      LeastFromLevel(edges, frontier, live, found, Walked(edges, found, live + found));
    }
  }

  lemma FrontierFound(edges: Edges, frontier: set<Symbol>, live: set<Symbol>, found: set<Symbol>)
    requires found == Image(edges, frontier) - live
    ensures found <= Targets(edges)
    ensures forall x :: x in frontier ==> Successors(edges, x) <= live + found
    ensures forall s: set<Symbol> ::
              live <= s && (forall x :: x in frontier ==> Successors(edges, x) <= s) ==> found <= s
  {
    forall x, y | x in frontier && y in Successors(edges, x) ensures y in live + found {
      assert y in Image(edges, frontier);
    }
  }

  lemma LeastFromLevel(edges: Edges, frontier: set<Symbol>, live: set<Symbol>, found: set<Symbol>, w: set<Symbol>)
    requires frontier <= live && found == Image(edges, frontier) - live
    requires LeastFrom(edges, found, live + found, w)
    ensures LeastFrom(edges, frontier, live, w)
  {
    FrontierFound(edges, frontier, live, found);
    forall s: set<Symbol> | Answers(edges, frontier, live, w, s) ensures w <= s {
      assert found <= s;
      assert Answers(edges, found, live + found, w, s);
    }
  }

  // So the order in which a walk takes its symbols makes no difference.
  lemma LeastFromUnique(edges: Edges, frontier: set<Symbol>, live: set<Symbol>, w: set<Symbol>)
    requires frontier <= live && LeastFrom(edges, frontier, live, w)
    ensures w == Walked(edges, frontier, live)
  {
    WalkedLeast(edges, frontier, live);
    assert Answers(edges, frontier, live, w, Walked(edges, frontier, live));
    assert Answers(edges, frontier, live, Walked(edges, frontier, live), w);
  }

  // ----- the loop of a walk -----

  // The symbols on the stack are still to be followed.
  ghost predicate Walking(edges: Edges, frontier: set<Symbol>, live: set<Symbol>, w: set<Symbol>, stack: set<Symbol>) {
    && live <= w
    && (forall x :: x in stack ==> x in w && Follows(frontier, live, x))
    && (forall x :: x in w && Follows(frontier, live, x) && x !in stack ==> Successors(edges, x) <= w)
    && Forced(edges, frontier, live, w)
  }

  lemma WalkStart(edges: Edges, frontier: set<Symbol>, live: set<Symbol>)
    requires frontier <= live
    ensures Walking(edges, frontier, live, live, frontier)
  {
  }

  lemma ForcedStep(edges: Edges, frontier: set<Symbol>, live: set<Symbol>, w: set<Symbol>, current: Symbol)
    requires Forced(edges, frontier, live, w) && current in w && Follows(frontier, live, current)
    ensures Forced(edges, frontier, live, w + Successors(edges, current))
  {
    var w' := w + Successors(edges, current);
    forall s: set<Symbol> | Answers(edges, frontier, live, w', s) ensures w' <= s {
      assert Answers(edges, frontier, live, w, s);
    }
  }

  lemma WalkStep(edges: Edges, frontier: set<Symbol>, live: set<Symbol>, w: set<Symbol>, stack: set<Symbol>,
                 current: Symbol, found: set<Symbol>)
    requires Walking(edges, frontier, live, w, stack) && current in stack
    requires found == Successors(edges, current) - w
    ensures Walking(edges, frontier, live, w + found, stack - {current} + found)
  {
    ForcedStep(edges, frontier, live, w, current);
    assert w + Successors(edges, current) == w + found;
  }

  lemma SuccessorsWithin(edges: Edges, x: Symbol)
    ensures Successors(edges, x) <= Targets(edges)
  {
  }

  lemma LeastFromWithin(edges: Edges, frontier: set<Symbol>, live: set<Symbol>, w: set<Symbol>)
    requires LeastFrom(edges, frontier, live, w)
    ensures live <= w <= live + Targets(edges)
  {
    forall x {
      SuccessorsWithin(edges, x);
    }
    assert Answers(edges, frontier, live, w, live + Targets(edges));
  }

  // Either something new leaves the targets, or the stack gets shorter.
  lemma StackShrinks(targets: set<Symbol>, w: set<Symbol>, stack: set<Symbol>, current: Symbol, found: set<Symbol>)
    requires found <= targets && found !! w && current in stack
    ensures |targets - (w + found)| < |targets - w| || (w + found == w && |stack - {current} + found| < |stack|)
  {
    if found != {} {
      FewerLeft(targets, w, found);
    } else {
      assert w + found == w && stack - {current} + found == stack - {current};
    }
  }

  // Between two symbols taken off the stack; `added` has what the walk has come across.
  ghost predicate Midway(edges: Edges, frontier: set<Symbol>, live: set<Symbol>, w: set<Symbol>, stack: set<Symbol>,
                         added0: set<Symbol>, added: set<Symbol>) {
    Walking(edges, frontier, live, w, stack) && added == added0 + (w - live)
  }

  lemma MidwayStep(edges: Edges, frontier: set<Symbol>, live: set<Symbol>, w: set<Symbol>, stack: set<Symbol>,
                   added0: set<Symbol>, added: set<Symbol>, current: Symbol, found: set<Symbol>)
    requires Midway(edges, frontier, live, w, stack, added0, added) && current in stack
    requires found == Successors(edges, current) - w
    ensures Midway(edges, frontier, live, w + found, stack - {current} + found, added0, added + found)
    ensures |Targets(edges) - (w + found)| < |Targets(edges) - w|
            || (w + found == w && |stack - {current} + found| < |stack|)
  {
    WalkStep(edges, frontier, live, w, stack, current, found);
    SuccessorsWithin(edges, current);
    StackShrinks(Targets(edges), w, stack, current, found);
  }

  lemma MidwayEnd(edges: Edges, frontier: set<Symbol>, live: set<Symbol>, w: set<Symbol>, added0: set<Symbol>,
                  added: set<Symbol>)
    requires Midway(edges, frontier, live, w, {}, added0, added)
    ensures LeastFrom(edges, frontier, live, w) && added == added0 + (w - live)
  {
  }

  method Walk(frontier: set<Symbol>, edges: Edges, live0: set<Symbol>, added0: set<Symbol>)
    returns (live: set<Symbol>, added: set<Symbol>)
    requires frontier <= live0
    ensures LeastFrom(edges, frontier, live0, live)
    ensures added == added0 + (live - live0)
  {
    live, added := live0, added0;
    var stack := frontier;
    WalkStart(edges, frontier, live0);
    while stack != {}
      invariant Midway(edges, frontier, live0, live, stack, added0, added)
      decreases |Targets(edges) - live|, |stack|
    {
      var current :| current in stack;
      var found := Successors(edges, current) - live;
      MidwayStep(edges, frontier, live0, live, stack, added0, added, current, found);
      live, added, stack := live + found, added + found, stack - {current} + found;
    }
    MidwayEnd(edges, frontier, live0, live, added0, added);
  }

  lemma Unseen(live: set<Symbol>, w: set<Symbol>, roots: set<Symbol>, xs: set<Symbol>)
    requires live <= w && roots == {} + (w - live)
    ensures xs - live - roots == xs - w && live + roots == w && roots !! live
  {
  }

  lemma MidwaySeen(edges: Edges, frontier: set<Symbol>, live: set<Symbol>, w: set<Symbol>, stack: set<Symbol>,
                   added0: set<Symbol>, added: set<Symbol>)
    requires Midway(edges, frontier, live, w, stack, added0, added)
    ensures live <= w && added == added0 + (w - live)
  {
  }

  // The override rule: every transitive override of what was revived.
  method OverrideRoots(start: set<Symbol>, g: SymbolGraph, live: set<Symbol>) returns (roots: set<Symbol>)
    requires start <= live
    ensures roots !! live && LeastFrom(g.overriders, start, live, live + roots)
  {
    roots := {};
    var stack := start;
    ghost var w := live;
    WalkStart(g.overriders, start, live);
    while stack != {}
      invariant Midway(g.overriders, start, live, w, stack, {}, roots)
      decreases |Targets(g.overriders) - w|, |stack|
    {
      var current :| current in stack;
      var found := Successors(g.overriders, current) - live - roots;
      MidwaySeen(g.overriders, start, live, w, stack, {}, roots);
      Unseen(live, w, roots, Successors(g.overriders, current));
      MidwayStep(g.overriders, start, live, w, stack, {}, roots, current, found);
      roots, stack, w := roots + found, stack - {current} + found, w + found;
    }
    MidwayEnd(g.overriders, start, live, w, {}, roots);
    MidwaySeen(g.overriders, start, live, w, {}, {}, roots);
    Unseen(live, w, roots, {});
  }

  // ----- the factory-class rule -----

  // The classes in `done` have been surfaced.  Their methods become roots, except that one that is also a class may
  // have become live as a class before.
  ghost predicate Surfacing(g: SymbolGraph, live0: set<Symbol>, done: set<Symbol>, live: set<Symbol>,
                            added: set<Symbol>, methodRoots: set<Symbol>) {
    && live == live0 + done && added == done - live0
    && Image(g.methods, done) - live0 - done <= methodRoots <= Image(g.methods, done) - live0
  }

  lemma SurfaceClass(g: SymbolGraph, live0: set<Symbol>, done: set<Symbol>, live: set<Symbol>, added: set<Symbol>,
                     methodRoots: set<Symbol>, cls: Symbol)
    requires Surfacing(g, live0, done, live, added, methodRoots)
    ensures Surfacing(g, live0, done + {cls}, live + {cls}, added + ({cls} - live),
                      methodRoots + (Successors(g.methods, cls) - (live + {cls})))
  {
    assert Image(g.methods, done + {cls}) == Image(g.methods, done) + Successors(g.methods, cls);
  }

  // No name is both a class defined in a function and a method.
  ghost predicate OneKind(g: SymbolGraph) {
    Targets(g.classes) !! Targets(g.methods)
  }

  lemma ImageWithin(edges: Edges, xs: set<Symbol>)
    ensures Image(edges, xs) <= Targets(edges)
  {
  }

  lemma ImageMore(edges: Edges, xs: set<Symbol>, x: Symbol)
    ensures Image(edges, xs + {x}) == Image(edges, xs) + Successors(edges, x)
  {
  }

  // The classes of the owners revived in the last round.
  method SurfaceClasses(frontier: set<Symbol>, g: SymbolGraph, live0: set<Symbol>)
    returns (live: set<Symbol>, added: set<Symbol>, methodRoots: set<Symbol>)
    ensures Surfacing(g, live0, Image(g.classes, frontier), live, added, methodRoots)
    ensures OneKind(g) ==> methodRoots == Image(g.methods, Image(g.classes, frontier)) - live0
  {
    live, added, methodRoots := live0, {}, {};
    var owners := frontier;
    ghost var surfaced: set<Symbol> := {};
    while owners != {}
      invariant owners <= frontier && surfaced == Image(g.classes, frontier - owners)
      invariant Surfacing(g, live0, surfaced, live, added, methodRoots)
    {
      var owner :| owner in owners;
      live, added, methodRoots := SurfaceOwner(owner, g, live0, surfaced, live, added, methodRoots);
      ImageMore(g.classes, frontier - owners, owner);
      assert frontier - (owners - {owner}) == frontier - owners + {owner};
      owners, surfaced := owners - {owner}, surfaced + Successors(g.classes, owner);
    }
    assert frontier - owners == frontier;
    ImageWithin(g.classes, frontier);
    ImageWithin(g.methods, surfaced);
  }

  method SurfaceOwner(owner: Symbol, g: SymbolGraph, ghost live0: set<Symbol>, ghost surfaced: set<Symbol>,
                      live1: set<Symbol>, added1: set<Symbol>, methodRoots1: set<Symbol>)
    returns (live: set<Symbol>, added: set<Symbol>, methodRoots: set<Symbol>)
    requires Surfacing(g, live0, surfaced, live1, added1, methodRoots1)
    ensures Surfacing(g, live0, surfaced + Successors(g.classes, owner), live, added, methodRoots)
  {
    live, added, methodRoots := live1, added1, methodRoots1;
    var classes := Successors(g.classes, owner);
    ghost var done := surfaced;
    while classes != {}
      invariant classes <= Successors(g.classes, owner)
      invariant done == surfaced + (Successors(g.classes, owner) - classes)
      invariant Surfacing(g, live0, done, live, added, methodRoots)
    {
      var cls :| cls in classes;
      SurfaceClass(g, live0, done, live, added, methodRoots, cls);
      if cls !in live {
        live, added := live + {cls}, added + {cls};
      } else {
        assert live + {cls} == live && added + ({cls} - live) == added;
      }
      methodRoots := methodRoots + (Successors(g.methods, cls) - live);
      classes, done := classes - {cls}, done + {cls};
    }
  }

  // ----- the rounds, as functions of the graph -----

  // What is live, what was revived in the last round, and which classes became live without being followed.
  datatype Progress = Progress(live: set<Symbol>, frontier: set<Symbol>, unfollowed: set<Symbol>)

  function Unfollowed(g: SymbolGraph, p: Progress, methods: set<Symbol>): set<Symbol> {
    p.unfollowed + (Image(g.classes, p.frontier) - p.live - methods)
  }

  // One round, given the method roots of its surfaced classes.
  function RoundWith(g: SymbolGraph, p: Progress, methods: set<Symbol>): Progress {
    var classes := Image(g.classes, p.frontier);
    var called := Walked(g.traversal, methods, p.live + classes + methods);
    var dispatched := Walked(g.overriders, p.frontier + (called - p.live), called);
    var live := Walked(g.traversal, dispatched - called, dispatched);
    Progress(live, live - p.live, Unfollowed(g, p, methods))
  }

  function MethodRoots(g: SymbolGraph, p: Progress): set<Symbol> {
    Image(g.methods, Image(g.classes, p.frontier)) - p.live
  }

  ghost predicate RootsOfRound(g: SymbolGraph, p: Progress, methods: set<Symbol>) {
    MethodRoots(g, p) - Image(g.classes, p.frontier) <= methods <= MethodRoots(g, p)
  }

  // The three growths of one round.
  ghost predicate Growths(g: SymbolGraph, p: Progress, methods: set<Symbol>, called: set<Symbol>,
                          dispatched: set<Symbol>, live: set<Symbol>) {
    && p.frontier <= p.live && RootsOfRound(g, p, methods)
    && LeastFrom(g.traversal, methods, p.live + Image(g.classes, p.frontier) + methods, called)
    && LeastFrom(g.overriders, p.frontier + (called - p.live), called, dispatched)
    && LeastFrom(g.traversal, dispatched - called, dispatched, live)
  }

  lemma RoundIs(g: SymbolGraph, p: Progress, methods: set<Symbol>, called: set<Symbol>, dispatched: set<Symbol>,
                live: set<Symbol>)
    requires Growths(g, p, methods, called, dispatched, live)
    ensures RoundWith(g, p, methods) == Progress(live, live - p.live, Unfollowed(g, p, methods))
  {
    LeastFromUnique(g.traversal, methods, p.live + Image(g.classes, p.frontier) + methods, called);
    LeastFromUnique(g.overriders, p.frontier + (called - p.live), called, dispatched);
    LeastFromUnique(g.traversal, dispatched - called, dispatched, live);
  }

  lemma RoundGrowths(g: SymbolGraph, p: Progress, methods: set<Symbol>)
    returns (called: set<Symbol>, dispatched: set<Symbol>)
    requires p.frontier <= p.live && RootsOfRound(g, p, methods)
    ensures Growths(g, p, methods, called, dispatched, RoundWith(g, p, methods).live)
  {
    called := Walked(g.traversal, methods, p.live + Image(g.classes, p.frontier) + methods);
    WalkedLeast(g.traversal, methods, p.live + Image(g.classes, p.frontier) + methods);
    dispatched := Walked(g.overriders, p.frontier + (called - p.live), called);
    WalkedLeast(g.overriders, p.frontier + (called - p.live), called);
    WalkedLeast(g.traversal, dispatched - called, dispatched);
  }

  lemma GrowthsWithin(g: SymbolGraph, p: Progress, methods: set<Symbol>, called: set<Symbol>, dispatched: set<Symbol>,
                      live: set<Symbol>)
    requires Growths(g, p, methods, called, dispatched, live)
    ensures p.live <= live <= p.live + AllTargets(g)
  {
    ImageWithin(g.classes, p.frontier);
    ImageWithin(g.methods, Image(g.classes, p.frontier));
    LeastFromWithin(g.traversal, methods, p.live + Image(g.classes, p.frontier) + methods, called);
    LeastFromWithin(g.overriders, p.frontier + (called - p.live), called, dispatched);
    LeastFromWithin(g.traversal, dispatched - called, dispatched, live);
  }

  lemma RoundGrows(g: SymbolGraph, p: Progress, methods: set<Symbol>)
    requires p.frontier <= p.live && RootsOfRound(g, p, methods)
    ensures p.live <= RoundWith(g, p, methods).live <= p.live + AllTargets(g)
  {
    var called, dispatched := RoundGrowths(g, p, methods);
    GrowthsWithin(g, p, methods, called, dispatched, RoundWith(g, p, methods).live);
  }

  lemma RoundShrinks(universe: set<Symbol>, before: set<Symbol>, live: set<Symbol>)
    requires before <= live <= before + universe
    ensures |universe - live| < |universe - before| || live == before
  {
    if live != before {
      assert before + (live - before) == live;
      FewerLeft(universe, before, live - before);
    }
  }

  // The rounds until one adds nothing.
  function Settled(g: SymbolGraph, p: Progress): Progress
    requires p.frontier <= p.live
    decreases |AllTargets(g) - p.live|, |p.frontier|
  {
    if p.frontier == {} then p
    else
      var next := RoundWith(g, p, MethodRoots(g, p));
      RoundGrows(g, p, MethodRoots(g, p));
      RoundShrinks(AllTargets(g), p.live, next.live);
      Settled(g, next)
  }

  // Decorated definitions that a symbol reached so far registers when it runs.
  function ClosureRoots(defines: set<(Symbol, Symbol)>, decorated: set<Symbol>, live: set<Symbol>): set<Symbol> {
    set pair | pair in defines && pair.0 in live && pair.1 !in live && pair.1 in decorated :: pair.1
  }

  // The roots, with the decorated closures of what calls reach from them.
  function AllRoots(g: SymbolGraph, roots: set<Symbol>, defines: set<(Symbol, Symbol)>, decorated: set<Symbol>)
    : set<Symbol>
  {
    roots + ClosureRoots(defines, decorated, Walked(g.traversal, roots, roots))
  }

  // What calls and references alone reach from these roots.
  function Called(g: SymbolGraph, roots: set<Symbol>, defines: set<(Symbol, Symbol)>, decorated: set<Symbol>)
    : set<Symbol>
  {
    var reach := Walked(g.traversal, roots, roots);
    var closureRoots := ClosureRoots(defines, decorated, reach);
    Walked(g.traversal, closureRoots, reach + closureRoots)
  }

  // What is live in the end.
  function Outcome(g: SymbolGraph, roots: set<Symbol>, defines: set<(Symbol, Symbol)>, decorated: set<Symbol>)
    : Progress
  {
    var called := Called(g, roots, defines, decorated);
    Settled(g, Progress(called, called, {}))
  }

  // ----- the declarative reading -----

  // A class defined in a live function is live, and so are its methods.
  ghost predicate FactoryClosed(g: SymbolGraph, s: set<Symbol>) {
    forall o, c :: o in s && c in Successors(g.classes, o) ==> c in s && Successors(g.methods, c) <= s
  }

  // An override of a live method is live.
  ghost predicate OverrideClosed(g: SymbolGraph, s: set<Symbol>) {
    forall x :: x in s ==> Successors(g.overriders, x) <= s
  }

  // What a live symbol calls or references is live, except that the symbols in `exempt` are not followed.
  ghost predicate TraversalClosed(g: SymbolGraph, exempt: set<Symbol>, s: set<Symbol>) {
    forall x :: x in s && x !in exempt ==> Successors(g.traversal, x) <= s
  }

  ghost predicate Closed(g: SymbolGraph, exempt: set<Symbol>, s: set<Symbol>) {
    FactoryClosed(g, s) && OverrideClosed(g, s) && TraversalClosed(g, exempt, s)
  }

  // The least closed set that contains the roots.
  ghost predicate LeastLive(g: SymbolGraph, exempt: set<Symbol>, roots: set<Symbol>, live: set<Symbol>) {
    && roots <= live && Closed(g, exempt, live)
    && forall s: set<Symbol> :: roots <= s && Closed(g, exempt, s) ==> live <= s
  }

  ghost function LeastClosed(g: SymbolGraph, exempt: set<Symbol>, roots: set<Symbol>): set<Symbol> {
    set x | x in roots + AllTargets(g) && forall s: set<Symbol> :: roots <= s && Closed(g, exempt, s) ==> x in s
  }

  // There is a least closed set, whatever is exempt: all three rules are kept by intersections.
  lemma LeastClosedIs(g: SymbolGraph, exempt: set<Symbol>, roots: set<Symbol>)
    ensures LeastLive(g, exempt, roots, LeastClosed(g, exempt, roots))
    ensures forall other: set<Symbol> :: LeastLive(g, exempt, roots, other) ==> other == LeastClosed(g, exempt, roots)
  {
    var least := LeastClosed(g, exempt, roots);
    assert Closed(g, exempt, roots + AllTargets(g));
    forall x, y | x in least && y in Successors(g.overriders, x) ensures y in least {
    }
    forall x, y | x in least && x !in exempt && y in Successors(g.traversal, x) ensures y in least {
    }
    forall o, c | o in least && c in Successors(g.classes, o) ensures c in least && Successors(g.methods, c) <= least {
    }
  }

  // ----- what the rounds keep -----

  // `live` has the classes of o and their methods.
  ghost predicate Surfaced(g: SymbolGraph, o: Symbol, live: set<Symbol>) {
    forall c :: c in Successors(g.classes, o) ==> c in live && Successors(g.methods, c) <= live
  }

  // s is closed as far as the symbols of `live` outside `unfollowed` are concerned.
  ghost predicate Justifies(g: SymbolGraph, roots: set<Symbol>, live: set<Symbol>, unfollowed: set<Symbol>,
                            s: set<Symbol>) {
    && roots <= s && FactoryClosed(g, s) && OverrideClosed(g, s)
    && forall x :: x in s && x in live && x !in unfollowed ==> Successors(g.traversal, x) <= s
  }

  // Nothing is live without a reason, as far as symbols have been followed.
  ghost predicate Minimal(g: SymbolGraph, roots: set<Symbol>, live: set<Symbol>, unfollowed: set<Symbol>) {
    forall s: set<Symbol> :: Justifies(g, roots, live, unfollowed, s) ==> live <= s
  }

  // Between two rounds: everything live except the frontier has been expanded.
  ghost predicate Expanded(g: SymbolGraph, roots: set<Symbol>, p: Progress) {
    && roots <= p.live && p.frontier <= p.live
    && TraversalClosed(g, p.unfollowed, p.live)
    && (forall o :: o in p.live && o !in p.frontier ==> Surfaced(g, o, p.live))
    && (forall x :: x in p.live && x !in p.frontier ==> Successors(g.overriders, x) <= p.live)
    && Minimal(g, roots, p.live, p.unfollowed)
  }

  // Only classes that became live as classes are not followed.
  ghost predicate OnlyClasses(g: SymbolGraph, roots: set<Symbol>, called: set<Symbol>, p: Progress) {
    && p.unfollowed <= p.live && p.unfollowed <= Targets(g.classes) && p.unfollowed !! called && called <= p.live
    && p.live - p.unfollowed <= roots + Targets(g.traversal) + Targets(g.overriders) + Targets(g.methods)
  }

  lemma FactoryForces(g: SymbolGraph, frontier: set<Symbol>, s: set<Symbol>)
    requires frontier <= s && FactoryClosed(g, s)
    ensures Image(g.classes, frontier) <= s && Image(g.methods, Image(g.classes, frontier)) <= s
  {
  }

  lemma OverrideForces(g: SymbolGraph, start: set<Symbol>, live: set<Symbol>, w: set<Symbol>, s: set<Symbol>)
    requires LeastFrom(g.overriders, start, live, w) && live <= s && OverrideClosed(g, s)
    ensures w <= s
  {
    assert Answers(g.overriders, start, live, w, s);
  }

  // One round adds nothing without a reason.
  lemma RoundMinimal(g: SymbolGraph, roots: set<Symbol>, p: Progress, methods: set<Symbol>, called: set<Symbol>,
                     dispatched: set<Symbol>, live: set<Symbol>)
    requires Growths(g, p, methods, called, dispatched, live)
    requires p.unfollowed <= p.live && Minimal(g, roots, p.live, p.unfollowed)
    ensures Minimal(g, roots, live, Unfollowed(g, p, methods))
  {
    var unfollowed, surfaced := Unfollowed(g, p, methods), p.live + Image(g.classes, p.frontier) + methods;
    forall s: set<Symbol> | Justifies(g, roots, live, unfollowed, s) ensures live <= s {
      assert Justifies(g, roots, p.live, p.unfollowed, s);
      FactoryForces(g, p.frontier, s);
      CallsForced(g, roots, methods, surfaced, called, live, unfollowed, s);
      OverrideForces(g, p.frontier + (called - p.live), called, dispatched, s);
      CallsForced(g, roots, dispatched - called, dispatched, live, live, unfollowed, s);
    }
  }

  lemma CallsForced(g: SymbolGraph, roots: set<Symbol>, frontier: set<Symbol>, before: set<Symbol>, w: set<Symbol>,
                    live: set<Symbol>, unfollowed: set<Symbol>, s: set<Symbol>)
    requires LeastFrom(g.traversal, frontier, before, w) && w <= live && unfollowed <= before && unfollowed !! frontier
    requires before <= s && Justifies(g, roots, live, unfollowed, s)
    ensures w <= s
  {
    assert Answers(g.traversal, frontier, before, w, s);
  }

  lemma RoundTraversal(g: SymbolGraph, p: Progress, methods: set<Symbol>, called: set<Symbol>, dispatched: set<Symbol>,
                       live: set<Symbol>)
    requires Growths(g, p, methods, called, dispatched, live) && TraversalClosed(g, p.unfollowed, p.live)
    ensures TraversalClosed(g, Unfollowed(g, p, methods), live)
  {
    var classes := Image(g.classes, p.frontier);
    forall x | x in live && x !in Unfollowed(g, p, methods) ensures Successors(g.traversal, x) <= live {
      if x in p.live {
        assert Successors(g.traversal, x) <= p.live;
      } else if x in called {
        assert Follows(methods, p.live + classes + methods, x);
      } else {
        assert Follows(dispatched - called, dispatched, x);
      }
    }
  }

  lemma RoundSurfaced(g: SymbolGraph, p: Progress, methods: set<Symbol>, called: set<Symbol>, dispatched: set<Symbol>,
                      live: set<Symbol>, o: Symbol)
    requires Growths(g, p, methods, called, dispatched, live) && o in p.live
    requires o !in p.frontier ==> Surfaced(g, o, p.live)
    ensures Surfaced(g, o, live)
  {
    forall c | c in Successors(g.classes, o) ensures c in live && Successors(g.methods, c) <= live {
      if o in p.frontier {
        assert c in Image(g.classes, p.frontier);
        assert Successors(g.methods, c) <= Image(g.methods, Image(g.classes, p.frontier));
        assert Image(g.methods, Image(g.classes, p.frontier)) <= p.live + Image(g.classes, p.frontier) + methods;
      }
    }
  }

  lemma RoundDispatched(g: SymbolGraph, p: Progress, methods: set<Symbol>, called: set<Symbol>,
                        dispatched: set<Symbol>, live: set<Symbol>, x: Symbol)
    requires Growths(g, p, methods, called, dispatched, live) && x in p.live
    requires x !in p.frontier ==> Successors(g.overriders, x) <= p.live
    ensures Successors(g.overriders, x) <= live
  {
    if x in p.frontier {
      assert x in dispatched && Follows(p.frontier + (called - p.live), called, x);
    }
  }

  lemma RoundKeeps(g: SymbolGraph, roots: set<Symbol>, called0: set<Symbol>, p: Progress, methods: set<Symbol>)
    requires Expanded(g, roots, p) && OnlyClasses(g, roots, called0, p) && RootsOfRound(g, p, methods)
    ensures Expanded(g, roots, RoundWith(g, p, methods)) && OnlyClasses(g, roots, called0, RoundWith(g, p, methods))
  {
    var called, dispatched := RoundGrowths(g, p, methods);
    var live := RoundWith(g, p, methods).live;
    RoundMinimal(g, roots, p, methods, called, dispatched, live);
    RoundTraversal(g, p, methods, called, dispatched, live);
    forall x | x in p.live ensures Surfaced(g, x, live) && Successors(g.overriders, x) <= live {
      RoundSurfaced(g, p, methods, called, dispatched, live, x);
      RoundDispatched(g, p, methods, called, dispatched, live, x);
    }
    RoundOnlyClasses(g, roots, called0, p, methods, called, dispatched, live);
  }

  lemma RoundOnlyClasses(g: SymbolGraph, roots: set<Symbol>, called0: set<Symbol>, p: Progress, methods: set<Symbol>,
                         called: set<Symbol>, dispatched: set<Symbol>, live: set<Symbol>)
    requires Growths(g, p, methods, called, dispatched, live) && OnlyClasses(g, roots, called0, p)
    ensures OnlyClasses(g, roots, called0, Progress(live, live - p.live, Unfollowed(g, p, methods)))
  {
    ImageWithin(g.classes, p.frontier);
    ImageWithin(g.methods, Image(g.classes, p.frontier));
    LeastFromWithin(g.traversal, methods, p.live + Image(g.classes, p.frontier) + methods, called);
    LeastFromWithin(g.overriders, p.frontier + (called - p.live), called, dispatched);
    LeastFromWithin(g.traversal, dispatched - called, dispatched, live);
  }

  // The rounds end in the least set closed under the three rules, but for the classes that are not followed.
  lemma {:induction false} SettledLeast(g: SymbolGraph, roots: set<Symbol>, called: set<Symbol>, p: Progress)
    requires Expanded(g, roots, p) && OnlyClasses(g, roots, called, p)
    ensures var q := Settled(g, p);
            LeastLive(g, q.unfollowed, roots, q.live) && OnlyClasses(g, roots, called, q)
    decreases |AllTargets(g) - p.live|, |p.frontier|
  {
    if p.frontier == {} {
      ExpandedLeast(g, roots, p);
    } else {
      var next := RoundWith(g, p, MethodRoots(g, p));
      RoundKeeps(g, roots, called, p, MethodRoots(g, p));
      RoundGrows(g, p, MethodRoots(g, p));
      RoundShrinks(AllTargets(g), p.live, next.live);
      SettledLeast(g, roots, called, next);
    }
  }

  lemma ExpandedLeast(g: SymbolGraph, roots: set<Symbol>, p: Progress)
    requires Expanded(g, roots, p) && p.frontier == {}
    ensures LeastLive(g, p.unfollowed, roots, p.live)
  {
    assert forall o :: o in p.live ==> Surfaced(g, o, p.live);
    forall s: set<Symbol> | roots <= s && Closed(g, p.unfollowed, s) ensures p.live <= s {
      assert Justifies(g, roots, p.live, p.unfollowed, s);
    }
  }

  // ----- where the rounds start -----

  // The least set that contains the roots and everything reachable from them by calls and references.
  ghost predicate LeastReach(g: SymbolGraph, roots: set<Symbol>, reach: set<Symbol>) {
    && roots <= reach && TraversalClosed(g, {}, reach)
    && forall s: set<Symbol> :: roots <= s && TraversalClosed(g, {}, s) ==> reach <= s
  }

  lemma ReachIs(g: SymbolGraph, roots: set<Symbol>, reach: set<Symbol>)
    requires LeastFrom(g.traversal, roots, roots, reach)
    ensures LeastReach(g, roots, reach)
  {
    forall s: set<Symbol> | roots <= s && TraversalClosed(g, {}, s) ensures reach <= s {
      assert Answers(g.traversal, roots, roots, reach, s);
    }
    assert forall x :: x in reach ==> Follows(roots, roots, x);
  }

  lemma CalledIs(g: SymbolGraph, roots: set<Symbol>, more: set<Symbol>, reach: set<Symbol>, called: set<Symbol>)
    requires LeastReach(g, roots, reach) && LeastFrom(g.traversal, more, reach + more, called)
    ensures LeastReach(g, roots + more, called)
  {
    forall x | x in called ensures Successors(g.traversal, x) <= called {
      assert Follows(more, reach + more, x) || (x in reach && Successors(g.traversal, x) <= reach);
    }
    forall s: set<Symbol> | roots + more <= s && TraversalClosed(g, {}, s) ensures called <= s {
      assert Answers(g.traversal, more, reach + more, called, s);
    }
  }

  // The walks reach what calls and references alone reach, from the roots and from the closures registered there.
  lemma CalledLeast(g: SymbolGraph, roots: set<Symbol>, defines: set<(Symbol, Symbol)>, decorated: set<Symbol>)
    ensures LeastReach(g, roots, Walked(g.traversal, roots, roots))
    ensures LeastReach(g, AllRoots(g, roots, defines, decorated), Called(g, roots, defines, decorated))
  {
    var reach := Walked(g.traversal, roots, roots);
    var closureRoots := ClosureRoots(defines, decorated, reach);
    WalkedLeast(g.traversal, roots, roots);
    ReachIs(g, roots, reach);
    WalkedLeast(g.traversal, closureRoots, reach + closureRoots);
    CalledIs(g, roots, closureRoots, reach, Called(g, roots, defines, decorated));
  }

  lemma StartExpanded(g: SymbolGraph, roots: set<Symbol>, called: set<Symbol>)
    requires LeastReach(g, roots, called)
    ensures Expanded(g, roots, Progress(called, called, {}))
    ensures OnlyClasses(g, roots, called, Progress(called, called, {}))
  {
    forall s: set<Symbol> | Justifies(g, roots, called, {}, s) ensures called <= s {
      assert TraversalClosed(g, {}, s * called);
    }
    ReachWithin(g, roots, called);
  }

  lemma ReachWithin(g: SymbolGraph, roots: set<Symbol>, called: set<Symbol>)
    requires LeastReach(g, roots, called)
    ensures called <= roots + Targets(g.traversal)
  {
    forall x {
      SuccessorsWithin(g.traversal, x);
    }
    assert TraversalClosed(g, {}, roots + Targets(g.traversal));
  }

  // What is live in the end: the least set closed under all three rules, but for classes that became live as classes of
  // a live function and are not followed.  What calls alone reach is followed.
  ghost predicate Liveness(g: SymbolGraph, roots: set<Symbol>, called: set<Symbol>, live: set<Symbol>,
                           unfollowed: set<Symbol>) {
    LeastLive(g, unfollowed, roots, live) && OnlyClasses(g, roots, called, Progress(live, {}, unfollowed))
  }

  lemma OutcomeLeast(g: SymbolGraph, roots: set<Symbol>, defines: set<(Symbol, Symbol)>, decorated: set<Symbol>)
    ensures var outcome := Outcome(g, roots, defines, decorated);
            Liveness(g, AllRoots(g, roots, defines, decorated), Called(g, roots, defines, decorated), outcome.live,
                     outcome.unfollowed)
  {
    var called := Called(g, roots, defines, decorated);
    CalledLeast(g, roots, defines, decorated);
    StartExpanded(g, AllRoots(g, roots, defines, decorated), called);
    SettledLeast(g, AllRoots(g, roots, defines, decorated), called, Progress(called, called, {}));
  }

  // Which symbols are roots in the end: the given ones, and each decorated definition that calls do not reach from them
  // but whose owner they do.
  lemma AllRootsIff(g: SymbolGraph, roots: set<Symbol>, defines: set<(Symbol, Symbol)>, decorated: set<Symbol>,
                    reach: set<Symbol>, c: Symbol)
    requires LeastReach(g, roots, reach)
    ensures c in AllRoots(g, roots, defines, decorated) <==>
            c in roots || (c in decorated && c !in reach && exists o :: o in reach && (o, c) in defines)
  {
    CalledLeast(g, roots, defines, decorated);
    assert reach == Walked(g.traversal, roots, roots);
    if o :| o in reach && (o, c) in defines {
      var pair := (o, c);
      assert pair in defines && pair.0 in reach && pair.1 == c;
    }
  }

  // y is a reason for x to be live: y calls or references x and is followed, x overrides y, or x is a class defined in
  // y or a method of one.
  ghost predicate Leads(g: SymbolGraph, unfollowed: set<Symbol>, y: Symbol, x: Symbol) {
    || (y !in unfollowed && y in g.traversal && x in g.traversal[y])
    || (y in g.overriders && x in g.overriders[y])
    || (y in g.classes && x in g.classes[y])
    || (y in g.classes && exists c :: c in g.classes[y] && c in g.methods && x in g.methods[c])
  }

  // Nothing is live without a root or another live symbol as its reason.
  lemma LiveIff(g: SymbolGraph, unfollowed: set<Symbol>, roots: set<Symbol>, live: set<Symbol>, x: Symbol)
    requires LeastLive(g, unfollowed, roots, live)
    ensures x in live <==> x in roots || exists y :: y in live && y != x && Leads(g, unfollowed, y, x)
  {
    if x in live && x !in roots && forall y :: y in live && y != x ==> !Leads(g, unfollowed, y, x) {
      var rest := live - {x};
      forall y | y in rest && y !in unfollowed ensures Successors(g.traversal, y) <= rest {
        assert Successors(g.traversal, y) <= live && !Leads(g, unfollowed, y, x);
      }
      forall y | y in rest ensures Successors(g.overriders, y) <= rest {
        assert Successors(g.overriders, y) <= live && !Leads(g, unfollowed, y, x);
      }
      forall y, c | y in rest && c in Successors(g.classes, y) ensures c in rest && Successors(g.methods, c) <= rest {
        assert c in live && Successors(g.methods, c) <= live && !Leads(g, unfollowed, y, x);
      }
      assert Closed(g, unfollowed, rest);
      assert false;
    }
    if y :| y in live && y != x && Leads(g, unfollowed, y, x) {
      LeadsOn(g, unfollowed, live, y, x);
    }
  }

  lemma LeadsOn(g: SymbolGraph, unfollowed: set<Symbol>, live: set<Symbol>, y: Symbol, x: Symbol)
    requires Closed(g, unfollowed, live) && y in live && Leads(g, unfollowed, y, x)
    ensures x in live
  {
    if c :| y in g.classes && c in g.classes[y] && c in g.methods && x in g.methods[c] {
      assert c in Successors(g.classes, y) && x in Successors(g.methods, c);
    }
    if y in g.classes && x in g.classes[y] {
      assert x in Successors(g.classes, y);
    }
    if y !in unfollowed && y in g.traversal && x in g.traversal[y] {
      assert x in Successors(g.traversal, y);
    }
    if y in g.overriders && x in g.overriders[y] {
      assert x in Successors(g.overriders, y);
    }
  }

  // x is a given root, registers when a symbol that calls reach from the roots runs, or has a live symbol that leads to
  // it.
  ghost predicate Explained(g: SymbolGraph, roots: set<Symbol>, defines: set<(Symbol, Symbol)>,
                            decorated: set<Symbol>, reach: set<Symbol>, live: set<Symbol>, unfollowed: set<Symbol>,
                            x: Symbol) {
    || x in roots
    || (x in decorated && x !in reach && exists o :: o in reach && (o, x) in defines)
    || exists y :: y in live && y != x && Leads(g, unfollowed, y, x)
  }

  // So what is live is what is explained.  A decorated closure whose owner is not reached needs a live symbol that
  // leads to it.
  lemma LiveExplained(g: SymbolGraph, roots: set<Symbol>, defines: set<(Symbol, Symbol)>, decorated: set<Symbol>,
                      reach: set<Symbol>, live: set<Symbol>, unfollowed: set<Symbol>)
    requires LeastReach(g, roots, reach)
    requires LeastLive(g, unfollowed, AllRoots(g, roots, defines, decorated), live)
    ensures forall x :: x in live <==> Explained(g, roots, defines, decorated, reach, live, unfollowed, x)
  {
    forall x ensures x in live <==> Explained(g, roots, defines, decorated, reach, live, unfollowed, x) {
      AllRootsIff(g, roots, defines, decorated, reach, x);
      LiveIff(g, unfollowed, AllRoots(g, roots, defines, decorated), live, x);
    }
  }

  // ----- the report -----

  method Round(g: SymbolGraph, frontier: set<Symbol>, live0: set<Symbol>, ghost unfollowed0: set<Symbol>)
    returns (live: set<Symbol>, added: set<Symbol>, ghost unfollowed: set<Symbol>, ghost methods: set<Symbol>)
    requires frontier <= live0
    ensures var p := Progress(live0, frontier, unfollowed0);
            && RootsOfRound(g, p, methods) && (OneKind(g) ==> methods == MethodRoots(g, p))
            && Progress(live, added, unfollowed) == RoundWith(g, p, methods)
  {
    ghost var p := Progress(live0, frontier, unfollowed0);
    var live1, classes, methodRoots := SurfaceClasses(frontier, g, live0);
    methods := methodRoots;
    var live2, added2 := Walk(methodRoots, g.traversal, live1 + methodRoots, classes + methodRoots);
    var overrideRoots := OverrideRoots(frontier + added2, g, live2);
    live, added := Walk(overrideRoots, g.traversal, live2 + overrideRoots, added2 + overrideRoots);
    unfollowed := Unfollowed(g, p, methods);
    AddedIs(live0, classes, methodRoots, live1, live2, added2, overrideRoots, live, added);
    assert live1 + methodRoots == p.live + Image(g.classes, p.frontier) + methods;
    assert live2 + overrideRoots - live2 == overrideRoots;
    RoundIs(g, p, methods, live2, live2 + overrideRoots, live);
  }

  lemma AddedIs(live0: set<Symbol>, classes: set<Symbol>, methods: set<Symbol>, live1: set<Symbol>,
                live2: set<Symbol>, added2: set<Symbol>, overrides: set<Symbol>, live: set<Symbol>, added: set<Symbol>)
    requires live1 == live0 + classes && classes !! live0 && methods !! live0
    requires live1 + methods <= live2 && added2 == classes + methods + (live2 - (live1 + methods))
    requires overrides !! live2 && live2 + overrides <= live
    requires added == added2 + overrides + (live - (live2 + overrides))
    ensures added2 == live2 - live0 && added == live - live0
  {
  }

  // Between two rounds of a run that started at `start`.
  ghost predicate OnTheWay(g: SymbolGraph, roots: set<Symbol>, called: set<Symbol>, start: Progress, p: Progress) {
    && start.frontier <= start.live && Expanded(g, roots, p) && OnlyClasses(g, roots, called, p)
    && (OneKind(g) ==> Settled(g, p) == Settled(g, start))
  }

  lemma RoundOnTheWay(g: SymbolGraph, roots: set<Symbol>, called: set<Symbol>, start: Progress, p: Progress,
                      methods: set<Symbol>, next: Progress)
    requires OnTheWay(g, roots, called, start, p) && p.frontier != {}
    requires RootsOfRound(g, p, methods) && (OneKind(g) ==> methods == MethodRoots(g, p))
    requires next == RoundWith(g, p, methods)
    ensures OnTheWay(g, roots, called, start, next)
    ensures |AllTargets(g) - next.live| < |AllTargets(g) - p.live|
            || (next.live == p.live && |next.frontier| < |p.frontier|)
  {
    RoundKeeps(g, roots, called, p, methods);
    RoundGrows(g, p, methods);
    RoundShrinks(AllTargets(g), p.live, next.live);
  }

  // The loop over rounds.
  method Expand(g: SymbolGraph, live0: set<Symbol>, ghost roots: set<Symbol>)
    returns (live: set<Symbol>, ghost unfollowed: set<Symbol>)
    requires LeastReach(g, roots, live0)
    ensures Liveness(g, roots, live0, live, unfollowed)
    ensures OneKind(g) ==> live == Settled(g, Progress(live0, live0, {})).live
  {
    live, unfollowed := live0, {};
    var frontier := live0;
    ghost var start := Progress(live0, live0, {});
    StartExpanded(g, roots, live0);
    while frontier != {}
      invariant OnTheWay(g, roots, live0, start, Progress(live, frontier, unfollowed))
      decreases |AllTargets(g) - live|, |frontier|
    {
      ghost var p, methods := Progress(live, frontier, unfollowed), {};
      live, frontier, unfollowed, methods := Round(g, frontier, live, unfollowed);
      RoundOnTheWay(g, roots, live0, start, p, methods, Progress(live, frontier, unfollowed));
    }
    ExpandedLeast(g, roots, Progress(live, frontier, unfollowed));
  }

  // The dead symbols are the candidates that are not live in the end.  If no name is both a class and a method they
  // are determined by the graph, in whatever order its sets are listed.
  method DeadSymbols(g: SymbolGraph, roots: set<Symbol>, defines: set<(Symbol, Symbol)>, decorated: set<Symbol>,
                     candidates: set<Symbol>)
    returns (dead: set<Symbol>)
    ensures OneKind(g) ==> dead == candidates - Outcome(g, roots, defines, decorated).live
    ensures exists reach, live, unfollowed ::
              && LeastReach(g, roots, reach)
              && Liveness(g, AllRoots(g, roots, defines, decorated), Called(g, roots, defines, decorated), live,
                          unfollowed)
              && dead == candidates - live
              && forall c :: c in candidates ==>
                   (c in dead <==> !Explained(g, roots, defines, decorated, reach, live, unfollowed, c))
  {
    var reach, _ := Walk(roots, g.traversal, roots, {});
    LeastFromUnique(g.traversal, roots, roots, reach);
    var closureRoots := ClosureRoots(defines, decorated, reach);
    var called, _ := Walk(closureRoots, g.traversal, reach + closureRoots, {});
    LeastFromUnique(g.traversal, closureRoots, reach + closureRoots, called);
    CalledLeast(g, roots, defines, decorated);
    var live, unfollowed := Expand(g, called, roots + closureRoots);
    dead := candidates - live;
    LiveExplained(g, roots, defines, decorated, reach, live, unfollowed);
    assert LeastReach(g, roots, reach);
    assert Liveness(g, AllRoots(g, roots, defines, decorated), Called(g, roots, defines, decorated), live, unfollowed);
  }

  // ----- what is not followed -----

  // The classes defined in functions that calls alone do not reach.
  function Inner(g: SymbolGraph, called: set<Symbol>): set<Symbol> {
    Targets(g.classes) - called
  }

  // What is live without following any of them is live.
  lemma UnfollowedLive(g: SymbolGraph, roots: set<Symbol>, called: set<Symbol>, live: set<Symbol>,
                       unfollowed: set<Symbol>)
    requires Liveness(g, roots, called, live, unfollowed)
    ensures LeastClosed(g, Inner(g, called), roots) <= live <= LeastClosed(g, {}, roots)
  {
    LeastClosedIs(g, Inner(g, called), roots);
    LeastClosedIs(g, {}, roots);
    assert Closed(g, Inner(g, called), live);
    assert Closed(g, unfollowed, LeastClosed(g, {}, roots));
  }

  // None of those that are live without following any calls something that is not.
  ghost predicate InnerClosed(g: SymbolGraph, roots: set<Symbol>, called: set<Symbol>) {
    var least := LeastClosed(g, Inner(g, called), roots);
    forall c :: c in Inner(g, called) && c in least ==> Successors(g.traversal, c) <= least
  }

  // Then every rule holds of the live set without exception.
  lemma InnerClosedEnough(g: SymbolGraph, roots: set<Symbol>, called: set<Symbol>, live: set<Symbol>,
                          unfollowed: set<Symbol>)
    requires Liveness(g, roots, called, live, unfollowed) && InnerClosed(g, roots, called)
    ensures live == LeastClosed(g, {}, roots) == LeastClosed(g, Inner(g, called), roots)
  {
    var least := LeastClosed(g, Inner(g, called), roots);
    UnfollowedLive(g, roots, called, live, unfollowed);
    LeastClosedIs(g, Inner(g, called), roots);
    LeastClosedIs(g, {}, roots);
    assert Closed(g, {}, least);
  }

  // Nothing but the factory rule makes one of them live.
  ghost predicate OnlyInner(g: SymbolGraph, roots: set<Symbol>, called: set<Symbol>) {
    Inner(g, called) !! roots + Targets(g.traversal) + Targets(g.overriders) + Targets(g.methods)
  }

  lemma OnlyInnerExact(g: SymbolGraph, roots: set<Symbol>, called: set<Symbol>, live: set<Symbol>,
                       unfollowed: set<Symbol>)
    requires Liveness(g, roots, called, live, unfollowed) && OnlyInner(g, roots, called)
    ensures live == LeastClosed(g, Inner(g, called), roots)
  {
    var least := LeastClosed(g, Inner(g, called), roots);
    UnfollowedLive(g, roots, called, live, unfollowed);
    LeastClosedIs(g, Inner(g, called), roots);
    forall x | x in least && x !in unfollowed ensures x !in Inner(g, called) {
      assert x in live - unfollowed;
    }
    assert Closed(g, unfollowed, least);
  }

  // For such graphs the live set is closed under all three rules if and only if none of the classes calls something
  // that is not live without following them.
  lemma ClosedIffInner(g: SymbolGraph, roots: set<Symbol>, called: set<Symbol>, live: set<Symbol>,
                       unfollowed: set<Symbol>)
    requires Liveness(g, roots, called, live, unfollowed) && OnlyInner(g, roots, called)
    ensures live == LeastClosed(g, {}, roots) <==> InnerClosed(g, roots, called)
  {
    OnlyInnerExact(g, roots, called, live, unfollowed);
    if InnerClosed(g, roots, called) {
      InnerClosedEnough(g, roots, called, live, unfollowed);
    }
    LeastClosedIs(g, {}, roots);
  }

  // For any graph the live set is closed under all three rules if and only if no class the rounds leave unfollowed
  // calls something that is not live.
  lemma OutcomeClosedIff(g: SymbolGraph, roots: set<Symbol>, defines: set<(Symbol, Symbol)>, decorated: set<Symbol>)
    ensures var outcome := Outcome(g, roots, defines, decorated);
            outcome.live == LeastClosed(g, {}, AllRoots(g, roots, defines, decorated)) <==>
            forall c :: c in outcome.unfollowed ==> Successors(g.traversal, c) <= outcome.live
  {
    var outcome, all := Outcome(g, roots, defines, decorated), AllRoots(g, roots, defines, decorated);
    OutcomeLeast(g, roots, defines, decorated);
    LeastClosedIs(g, {}, all);
    UnfollowedLive(g, all, Called(g, roots, defines, decorated), outcome.live, outcome.unfollowed);
    if forall c :: c in outcome.unfollowed ==> Successors(g.traversal, c) <= outcome.live {
      assert Closed(g, {}, outcome.live);
    }
  }

  // In particular nothing is missed when the classes defined in functions have no calls or references of their own.
  lemma NoClassEdges(g: SymbolGraph, roots: set<Symbol>, called: set<Symbol>, live: set<Symbol>,
                     unfollowed: set<Symbol>)
    requires Liveness(g, roots, called, live, unfollowed)
    requires forall c :: c in Targets(g.classes) ==> Successors(g.traversal, c) == {}
    ensures live == LeastClosed(g, {}, roots)
  {
    InnerClosedEnough(g, roots, called, live, unfollowed);
  }

  // Otherwise a live class can have a dead callee: `owner` defines `cls`, which references `base`, and nothing else
  // leads anywhere.
  function FactoryGraph(): SymbolGraph {
    SymbolGraph(map["cls" := {"base"}], map[], map["owner" := {"cls"}], map[])
  }

  // The class is live, what it references is reported.
  lemma ClassEdgeNotFollowed()
    ensures OneKind(FactoryGraph())
    ensures "cls" in Outcome(FactoryGraph(), {"owner"}, {}, {}).live
    ensures "base" !in Outcome(FactoryGraph(), {"owner"}, {}, {}).live
    ensures "base" in LeastClosed(FactoryGraph(), {}, {"owner"})
  {
    var g := FactoryGraph();
    var outcome := Outcome(g, {"owner"}, {}, {});
    OutcomeLeast(g, {"owner"}, {}, {});
    assert AllRoots(g, {"owner"}, {}, {}) == {"owner"};
    FactoryGraphLive(Called(g, {"owner"}, {}, {}), outcome.live, outcome.unfollowed);
    LeastClosedIs(g, {}, {"owner"});
    assert "cls" in Successors(g.classes, "owner") && "base" in Successors(g.traversal, "cls");
  }

  lemma FactoryGraphLive(called: set<Symbol>, live: set<Symbol>, unfollowed: set<Symbol>)
    requires Liveness(FactoryGraph(), {"owner"}, called, live, unfollowed)
    ensures "cls" in live && "base" !in live
  {
    var g := FactoryGraph();
    assert "cls" in Successors(g.classes, "owner");
    assert "base" in g.traversal["cls"];
    assert Targets(g.traversal) == {"base"} && Targets(g.overriders) == {} && Targets(g.methods) == {};
    assert "cls"[0] == 'c' && "base"[0] == 'b' && "owner"[0] == 'o';
    assert "cls" !in {"owner"} + Targets(g.traversal) + Targets(g.overriders) + Targets(g.methods);
    assert "cls" !in live - unfollowed;
    assert Closed(g, unfollowed, {"owner", "cls"});
  }
}
